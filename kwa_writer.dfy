/**
 * The KW archive writer process: it owns three append-only streams, the
 * text `.index`, the binary `.data` and (optionally) the binary `.meta`,
 * opens them and writes their headers in `_init`, appends one frame to
 * each in `_step`, and releases them when its private state is destroyed.
 *
 * The streams are values held in the writer's fields: each is owned by
 * the writer alone. A binary stream's `vsl_b_ostream` adapter is modelled
 * only by whether its pointer is set; the stream header the adapter writes
 * and the serialisation records it keeps are not modelled.
 */
module KwaWriter {
  import opened Opt
  import opened KwaIndex
  import opened KwaFormat

  // ---------------------------------------------------------------------
  // Streams, files and configuration

  /**
   * An output file stream: the file it was opened on, what has been written
   * to it, whether the file is open and whether the stream is still good
   * (`!*stream` is `!good`).
   */
  datatype OStream<T> = OStream(path: string, contents: seq<T>, isOpen: bool, good: bool)

  /**
   * The file system as the writer meets it: the paths that can be opened
   * for writing, and the paths whose writes fail once opened.
   */
  datatype FileSystem = FileSystem(openable: set<string>, failing: set<string>)

  /** What a file holds once its stream has been flushed and closed. */
  datatype File = TextFile(text: string) | BinaryFile(tokens: seq<Token>)

  /** The six configuration values of the process. */
  datatype Config = Config(outputDirectory: string, baseFilename: string, separateMeta: bool,
                           missionId: string, streamId: string, compressImage: bool)

  /** The declared defaults of the configuration values. */
  const DefaultConfig := Config(".", "", true, "", "", true)

  /** The configuration as the process is given it: a key that was not set is `None`. */
  datatype Settings = Settings(outputDirectory: Option<string>, baseFilename: Option<string>,
                               separateMeta: Option<bool>, missionId: Option<string>,
                               streamId: Option<string>, compressImage: Option<bool>)

  /** A configuration value: the one set, or the declared default when the key was not set. */
  function ValueOr<T>(o: Option<T>, default: T): (v: T)
    ensures o.Some? ==> v == o.value
    ensures o.None? ==> v == default
  {
    match o
    case Some(x) => x
    case None => default
  }

  datatype InitError = OpenFailed(path: string) | HeaderWriteFailed
  {
    function Reason(): string
    {
      match this
      case OpenFailed(path) => "Failed to open " + path + " for writing"
      case HeaderWriteFailed => "Failed while writing file headers"
    }
  }

  /** The version word at the head of the metadata stream. */
  const MetaVersion := 2

  const PixelTypeError := "Input image type is not of unsigned char pixel type"

  /**
   * Opening a stream with truncation: the stream starts empty, on its path,
   * and is open and good exactly when the path can be opened.
   */
  function Opened<T>(path: string, fs: FileSystem): (s: OStream<T>)
    ensures s.path == path && s.contents == []
    ensures s.isOpen <==> path in fs.openable
    ensures s.good <==> path in fs.openable
  {
    var ok := path in fs.openable;
    OStream(path, [], ok, ok)
  }

  /** A write: a good stream takes the items, a failed one ignores them. */
  function Appended<T>(s: OStream<T>, items: seq<T>): OStream<T>
  {
    if s.good then s.(contents := s.contents + items) else s
  }

  /**
   * A header write, which fails (and leaves the stream failed) on a failing
   * path: the stream stays good exactly when it was good and its path does
   * not fail, and then it holds the items after what it held; a stream that
   * is not good holds what it held before. It stays on its path, open or not
   * as it was.
   */
  function HeaderWritten<T>(s: OStream<T>, items: seq<T>, fs: FileSystem): (r: OStream<T>)
    ensures r.path == s.path && r.isOpen == s.isOpen
    ensures r.good <==> s.good && s.path !in fs.failing
    ensures r.good ==> r.contents == s.contents + items
    ensures !r.good ==> r.contents == s.contents
  {
    if s.good && s.path in fs.failing then s.(good := false) else Appended(s, items)
  }

  /** `tellp()`: the write position of a good stream, -1 for a failed one. */
  function TellP<T>(s: OStream<T>): int
  {
    if s.good then |s.contents| else -1
  }

  /** Writing moves a good stream's position on by the items written; a failed stream stays at -1. */
  lemma TellPAdvances<T>(s: OStream<T>, items: seq<T>)
    ensures s.good ==> TellP(Appended(s, items)) == TellP(s) + |items|
    ensures !s.good ==> TellP(Appended(s, items)) == -1
  {
  }

  lemma AppendedTwice<T>(s: OStream<T>, a: seq<T>, b: seq<T>)
    ensures Appended(Appended(s, a), b) == Appended(s, a + b)
  {
  }

  lemma AppendedNothing<T>(s: OStream<T>)
    ensures Appended(s, []) == s
  {
    assert s.contents + [] == s.contents;
  }

  /** Deleting a text stream: an open file keeps what was written to it. */
  function FlushText(disk: map<string, File>, s: Option<OStream<string>>): map<string, File>
  {
    match s
    case None => disk
    case Some(st) => if st.isOpen then disk[st.path := TextFile(IndexText(st.contents))] else disk
  }

  function FlushBinary(disk: map<string, File>, s: Option<OStream<Token>>): map<string, File>
  {
    match s
    case None => disk
    case Some(st) => if st.isOpen then disk[st.path := BinaryFile(st.contents)] else disk
  }

  /** The data stream version: 3 (JPEG images) when compressing, 2 (raw views) otherwise. */
  function DataVersionFor(compressImage: bool): (v: int)
    ensures v == 2 || v == 3
    ensures v == 3 <==> compressImage
  {
    if compressImage then 3 else 2
  }

  /**
   * How the opening half of `_init` ends: the first of the index, metadata
   * (when separate) and data paths that cannot be opened is named.
   */
  function OpenOutcome(indexPath: string, metaPath: string, dataPath: string,
                       separateMeta: bool, fs: FileSystem): Outcome<InitError>
  {
    if indexPath !in fs.openable then Fail(OpenFailed(indexPath))
    else if separateMeta && metaPath !in fs.openable then Fail(OpenFailed(metaPath))
    else if dataPath !in fs.openable then Fail(OpenFailed(dataPath))
    else Pass
  }

  /** How the header half ends: a write failure on any stream written is reported. */
  function HeaderOutcome(indexPath: string, metaPath: string, dataPath: string,
                         separateMeta: bool, fs: FileSystem): Outcome<InitError>
  {
    if indexPath in fs.failing || dataPath in fs.failing || (separateMeta && metaPath in fs.failing)
    then Fail(HeaderWriteFailed)
    else Pass
  }

  /** How `_init` ends: an open failure first, otherwise a header failure, otherwise success. */
  function InitOutcome(indexPath: string, metaPath: string, dataPath: string,
                       separateMeta: bool, fs: FileSystem): Outcome<InitError>
  {
    match OpenOutcome(indexPath, metaPath, dataPath, separateMeta, fs)
    case Fail(e) => Fail(e)
    case Pass => HeaderOutcome(indexPath, metaPath, dataPath, separateMeta, fs)
  }

  // ---------------------------------------------------------------------
  // Stream contents as functions of the frames written

  /** What one call of `write_frame_data` appends for a frame. */
  function Emitted(f: Frame, version: int, withImage: bool, codec: Codec): seq<Token>
  {
    if IsByteImage(f.image.traits) then Encode(RecordOf(version, withImage, f, codec)) else []
  }

  /**
   * What `write_frame_data` emits for a frame: nothing when the pixels fail
   * the check; otherwise one record, which reads back, from the front of
   * whatever follows it, as the frame's timestamp, the image block of the
   * stream's version, the transform's entries row by row, the four corners,
   * the ground sample distance, the frame number, the reference frame and
   * the view's extents.
   */
  lemma EmittedReadsBack(f: Frame, version: int, withImage: bool, codec: Codec, rest: seq<Token>)
    ensures !IsByteImage(f.image.traits) ==> Emitted(f, version, withImage, codec) == []
    ensures IsByteImage(f.image.traits) ==>
              var e := Emitted(f, version, withImage, codec);
              && DecodeRecord(e + rest, version, withImage).Some?
              && var (rec, n) := DecodeRecord(e + rest, version, withImage).value;
                 && n == |e|
                 && rec.usec == f.time.usec
                 && rec.image == ImageBlockFor(version, withImage, ViewOf(f.image), codec)
                 && rec.transform == RowMajor(f.homography.matrix)
                 && CornersFromList(rec.corners) == Some(f.corners)
                 && rec.gsd == f.gsd && rec.frame == f.time.frame && rec.refFrame == f.homography.toId
                 && rec.ni == ViewOf(f.image).ni && rec.nj == ViewOf(f.image).nj
  {
    if IsByteImage(f.image.traits) {
      var rec := RecordOf(version, withImage, f, codec);
      RecordOfFits(version, withImage, f, codec);
      DecodeEncode(rec, version, withImage, rest);
      CornerListReadsBack(f.corners);
    }
  }

  /** The records appended to a binary stream for a sequence of frames. */
  function Records(fs: seq<Frame>, version: int, withImage: bool, codec: Codec): seq<Token>
  {
    if |fs| == 0 then [] else Emitted(fs[0], version, withImage, codec) + Records(fs[1..], version, withImage, codec)
  }

  /** The records a reader should find: one per frame whose pixels passed the check. */
  function WrittenRecords(fs: seq<Frame>, version: int, withImage: bool, codec: Codec): seq<Record>
  {
    if |fs| == 0 then []
    else if IsByteImage(fs[0].image.traits)
    then [RecordOf(version, withImage, fs[0], codec)] + WrittenRecords(fs[1..], version, withImage, codec)
    else WrittenRecords(fs[1..], version, withImage, codec)
  }

  /** The index lines after the header: frame k's timestamp and the data stream's length before it. */
  function IndexLines(fs: seq<Frame>, version: int, codec: Codec): (lines: seq<string>)
    ensures |lines| == |fs|
  {
    if |fs| == 0 then []
    else
      var init := fs[..|fs| - 1];
      IndexLines(init, version, codec)
      + [FrameLine(fs[|fs| - 1].time.usec, 1 + |Records(init, version, true, codec)|)]
  }

  /** Reads a whole binary stream body as consecutive records. */
  function DecodeStream(s: seq<Token>, version: int, withImage: bool): (r: Option<seq<Record>>)
    ensures r.Some? ==> forall i :: 0 <= i < |r.value| ==> Fits(r.value[i].image, version, withImage)
    decreases |s|
  {
    if |s| == 0 then Some([])
    else
      match DecodeRecord(s, version, withImage)
      case None => None
      case Some((rec, n)) =>
        match DecodeStream(s[n..], version, withImage)
        case None => None
        case Some(rest) => Some([rec] + rest)
  }

  lemma {:induction false} RecordsAppend(a: seq<Frame>, b: seq<Frame>, version: int, withImage: bool, codec: Codec)
    ensures Records(a + b, version, withImage, codec)
         == Records(a, version, withImage, codec) + Records(b, version, withImage, codec)
  {
    if |a| == 0 {
      assert a + b == b;
    } else {
      assert (a + b)[1..] == a[1..] + b;
      RecordsAppend(a[1..], b, version, withImage, codec);
    }
  }

  /** Appending a frame appends exactly what `write_frame_data` emitted for it. */
  lemma RecordsSnoc(fs: seq<Frame>, f: Frame, version: int, withImage: bool, codec: Codec)
    ensures Records(fs + [f], version, withImage, codec)
         == Records(fs, version, withImage, codec) + Emitted(f, version, withImage, codec)
  {
    RecordsAppend(fs, [f], version, withImage, codec);
    assert [f][1..] == [];
  }

  lemma IndexLinesSnoc(fs: seq<Frame>, f: Frame, version: int, codec: Codec)
    ensures IndexLines(fs + [f], version, codec)
         == IndexLines(fs, version, codec) + [FrameLine(f.time.usec, 1 + |Records(fs, version, true, codec)|)]
  {
    TakeFront(fs, f);
  }

  /** Line k of the index belongs to frame k, whatever frames follow it. */
  lemma {:induction false} IndexLineAt(fs: seq<Frame>, version: int, codec: Codec, k: nat)
    requires k < |fs|
    ensures IndexLines(fs, version, codec)[k] == FrameLine(fs[k].time.usec, 1 + |Records(fs[..k], version, true, codec)|)
  {
    if k < |fs| - 1 {
      IndexLineAt(fs[..|fs| - 1], version, codec, k);
      EarlierIndexLine(fs, version, codec, k);
      PrefixOffset(fs, version, codec, k);
    } else {
      LastIndexLine(fs, version, codec);
    }
  }

  lemma LastIndexLine(fs: seq<Frame>, version: int, codec: Codec)
    requires |fs| > 0
    ensures IndexLines(fs, version, codec)[|fs| - 1]
         == FrameLine(fs[|fs| - 1].time.usec, 1 + |Records(fs[..|fs| - 1], version, true, codec)|)
  {
  }

  lemma EarlierIndexLine(fs: seq<Frame>, version: int, codec: Codec, k: nat)
    requires k < |fs| - 1
    ensures IndexLines(fs, version, codec)[k] == IndexLines(fs[..|fs| - 1], version, codec)[k]
  {
  }

  lemma PrefixOffset(fs: seq<Frame>, version: int, codec: Codec, k: nat)
    requires k < |fs| - 1
    ensures fs[..|fs| - 1][k] == fs[k]
    ensures Records(fs[..|fs| - 1][..k], version, true, codec) == Records(fs[..k], version, true, codec)
  {
    TakeTake(fs, |fs| - 1, k);
  }

  /**
   * A frame whose pixels fail the check still gets its index line, but
   * neither binary stream grows: the index line points where the next
   * record will start.
   */
  lemma SkippedFrameWritesNoRecord(fs: seq<Frame>, f: Frame, version: int, codec: Codec)
    requires !IsByteImage(f.image.traits)
    ensures Records(fs + [f], version, true, codec) == Records(fs, version, true, codec)
    ensures Records(fs + [f], version, false, codec) == Records(fs, version, false, codec)
    ensures IndexLines(fs + [f], version, codec)
         == IndexLines(fs, version, codec) + [FrameLine(f.time.usec, 1 + |Records(fs + [f], version, true, codec)|)]
  {
    RecordsSnoc(fs, f, version, true, codec);
    RecordsSnoc(fs, f, version, false, codec);
    IndexLinesSnoc(fs, f, version, codec);
  }

  /** Every binary stream body reads back as the records of the frames that passed the pixel check. */
  lemma {:induction false} DecodeStreamRecords(fs: seq<Frame>, version: int, readVersion: int,
                                               withImage: bool, codec: Codec)
    requires withImage ==> readVersion == version
    ensures DecodeStream(Records(fs, version, withImage, codec), readVersion, withImage)
         == Some(WrittenRecords(fs, version, withImage, codec))
  {
    if |fs| > 0 {
      var rest := Records(fs[1..], version, withImage, codec);
      DecodeStreamRecords(fs[1..], version, readVersion, withImage, codec);
      if IsByteImage(fs[0].image.traits) {
        var rec := RecordOf(version, withImage, fs[0], codec);
        RecordOfFits(version, withImage, fs[0], codec);
        DecodeEncode(rec, readVersion, withImage, rest);
        assert (Encode(rec) + rest)[|Encode(rec)|..] == rest;
      } else {
        assert Records(fs, version, withImage, codec) == rest;
      }
    }
  }

  lemma {:induction false} WrittenRecordsParity(fs: seq<Frame>, version: int, codec: Codec)
    ensures |WrittenRecords(fs, version, false, codec)| == |WrittenRecords(fs, version, true, codec)|
    ensures forall i :: 0 <= i < |WrittenRecords(fs, version, true, codec)| ==>
      WrittenRecords(fs, version, false, codec)[i] == WrittenRecords(fs, version, true, codec)[i].(image := NoImage)
  {
    if |fs| > 0 {
      WrittenRecordsParity(fs[1..], version, codec);
      MetaRecordDropsOnlyImage(version, fs[0], codec);
    }
  }

  /**
   * The data and metadata streams move in lock-step: read back, they hold
   * the same number of records, each metadata record is its data record
   * without the image, and every data record carries the image block its
   * stream version calls for.
   */
  lemma StreamsInLockStep(fs: seq<Frame>, version: int, codec: Codec)
    ensures var data := DecodeStream(Records(fs, version, true, codec), version, true);
            var meta := DecodeStream(Records(fs, version, false, codec), MetaVersion, false);
            && data == Some(WrittenRecords(fs, version, true, codec))
            && meta.Some? && |meta.value| == |data.value|
            && (forall i :: 0 <= i < |data.value| ==> meta.value[i] == data.value[i].(image := NoImage))
            && (forall i :: 0 <= i < |data.value| ==> (data.value[i].image.Jpeg? <==> version == 3))
            && (forall i :: 0 <= i < |data.value| ==> (data.value[i].image.Raw? <==> version == 2))
  {
    DecodeStreamRecords(fs, version, version, true, codec);
    DecodeStreamRecords(fs, version, MetaVersion, false, codec);
    WrittenRecordsParity(fs, version, codec);
  }

  /** The data stream body split around frame k. */
  lemma RecordsAround(fs: seq<Frame>, k: nat, version: int, withImage: bool, codec: Codec)
    requires k < |fs|
    ensures Records(fs, version, withImage, codec)
         == Records(fs[..k], version, withImage, codec) + Emitted(fs[k], version, withImage, codec)
            + Records(fs[k + 1..], version, withImage, codec)
  {
    SplitAt(fs, k);
    RecordsAppend(fs[..k], fs[k..], version, withImage, codec);
    RecordsFrom(fs, k, version, withImage, codec);
  }

  lemma RecordsFrom(fs: seq<Frame>, k: nat, version: int, withImage: bool, codec: Codec)
    requires k < |fs|
    ensures Records(fs[k..], version, withImage, codec)
         == Emitted(fs[k], version, withImage, codec) + Records(fs[k + 1..], version, withImage, codec)
  {
    SplitAt(fs, k);
  }

  /** The k-th index line reads back as frame k's timestamp and the data stream's length before frame k. */
  lemma IndexLineReadsBack(fs: seq<Frame>, version: int, codec: Codec, k: nat)
    requires k < |fs|
    ensures ParseFrameLine(IndexLines(fs, version, codec)[k])
         == Some((fs[k].time.usec, |[Int32(version)] + Records(fs[..k], version, true, codec)|))
  {
    var offset := 1 + |Records(fs[..k], version, true, codec)|;
    IndexLineAt(fs, version, codec, k);
    ParseFrameLineRoundTrip(fs[k].time.usec, offset);
  }

  /**
   * What the three streams hold: the index lines, the data stream's tokens
   * and, when there is a metadata stream, its tokens.
   */
  datatype Contents = Contents(index: seq<string>, data: seq<Token>, meta: Option<seq<Token>>)

  /** The contents once `_init` has written the headers. */
  function HeaderContents(header: seq<string>, version: int, separateMeta: bool): Contents
  {
    Contents(header, [Int32(version)], if separateMeta then Some([Int32(MetaVersion)]) else None)
  }

  /**
   * What one `_step` does to the contents: an index line holding the
   * frame's timestamp and the data stream's length before the frame, then
   * the frame's record on the data stream and, without the image, on the
   * metadata stream.
   */
  function StepContents(c: Contents, f: Frame, version: int, codec: Codec): Contents
  {
    Contents(c.index + [FrameLine(f.time.usec, |c.data|)],
             c.data + Emitted(f, version, true, codec),
             if c.meta.Some? then Some(c.meta.value + Emitted(f, version, false, codec)) else None)
  }

  /** The contents after a run of steps from `start`. */
  function RunContents(start: Contents, fs: seq<Frame>, version: int, codec: Codec): Contents
    decreases |fs|
  {
    if |fs| == 0 then start
    else StepContents(RunContents(start, fs[..|fs| - 1], version, codec), fs[|fs| - 1], version, codec)
  }

  /**
   * The archive the headers and a run of frames make: the header lines and
   * one index line per frame; the data version word and the frames' records
   * with images; the metadata version word and the records without images,
   * when there is a metadata stream.
   */
  ghost predicate ArchiveHolds(c: Contents, header: seq<string>, version: int, fs: seq<Frame>, codec: Codec)
  {
    && c.index == header + IndexLines(fs, version, codec)
    && c.data == [Int32(version)] + Records(fs, version, true, codec)
    && (c.meta.Some? ==> c.meta.value == [Int32(MetaVersion)] + Records(fs, version, false, codec))
  }

  /**
   * One step keeps the archive whole: the index line, which records the
   * data stream's length before the frame, and the frame's records make the
   * contents those of the longer run.
   */
  lemma ArchiveHoldsAfterStep(c: Contents, header: seq<string>, version: int, fs: seq<Frame>, f: Frame, codec: Codec)
    requires ArchiveHolds(c, header, version, fs, codec)
    ensures ArchiveHolds(StepContents(c, f, version, codec), header, version, fs + [f], codec)
  {
    IndexLinesSnoc(fs, f, version, codec);
    AppendAssoc(header, IndexLines(fs, version, codec), [FrameLine(f.time.usec, |c.data|)]);
    RecordsSnoc(fs, f, version, true, codec);
    AppendAssoc([Int32(version)], Records(fs, version, true, codec), Emitted(f, version, true, codec));
    RecordsSnoc(fs, f, version, false, codec);
    if c.meta.Some? {
      AppendAssoc([Int32(MetaVersion)], Records(fs, version, false, codec), Emitted(f, version, false, codec));
    }
  }

  /** The headers alone hold the archive of no frames. */
  lemma HeaderHolds(header: seq<string>, version: int, separateMeta: bool, codec: Codec)
    ensures ArchiveHolds(HeaderContents(header, version, separateMeta), header, version, [], codec)
  {
    assert header + [] == header;
  }

  /** Whatever frames are written after the headers, the streams hold their archive. */
  lemma {:induction false} RunHolds(header: seq<string>, version: int, separateMeta: bool, fs: seq<Frame>, codec: Codec)
    ensures ArchiveHolds(RunContents(HeaderContents(header, version, separateMeta), fs, version, codec),
                         header, version, fs, codec)
  {
    if |fs| == 0 {
      HeaderHolds(header, version, separateMeta, codec);
    } else {
      var init, last := fs[..|fs| - 1], fs[|fs| - 1];
      RunHolds(header, version, separateMeta, init, codec);
      RunHoldsSnoc(HeaderContents(header, version, separateMeta), header, version, init, last, codec);
      SplitLast(fs);
    }
  }

  lemma RunHoldsSnoc(start: Contents, header: seq<string>, version: int, fs: seq<Frame>, f: Frame, codec: Codec)
    requires ArchiveHolds(RunContents(start, fs, version, codec), header, version, fs, codec)
    ensures ArchiveHolds(RunContents(start, fs + [f], version, codec), header, version, fs + [f], codec)
  {
    TakeFront(fs, f);
    ArchiveHoldsAfterStep(RunContents(start, fs, version, codec), header, version, fs, f, codec);
  }

  /**
   * In any archive, the index line of frame k names the frame's timestamp
   * and an offset into the data stream; when the frame's pixels passed the
   * check, its record is read back from that offset.
   */
  lemma ArchiveIndexLocatesRecords(header: seq<string>, version: int, separateMeta: bool,
                                   fs: seq<Frame>, codec: Codec, k: nat)
    requires k < |fs|
    ensures var c := RunContents(HeaderContents(header, version, separateMeta), fs, version, codec);
            && |header| + k < |c.index|
            && ParseFrameLine(c.index[|header| + k]).Some?
            && var (usec, offset) := ParseFrameLine(c.index[|header| + k]).value;
               && usec == fs[k].time.usec
               && 0 <= offset <= |c.data|
               && (IsByteImage(fs[k].image.traits) ==>
                     DecodeRecord(c.data[offset..], version, true)
                     == Some((RecordOf(version, true, fs[k], codec), |Encode(RecordOf(version, true, fs[k], codec))|)))
  {
    var c := RunContents(HeaderContents(header, version, separateMeta), fs, version, codec);
    RunHolds(header, version, separateMeta, fs, codec);
    IndexLocatesRecord(c, header, version, fs, codec, k);
  }

  /** The same, for any contents that hold the archive of the frames. */
  lemma IndexLocatesRecord(c: Contents, header: seq<string>, version: int, fs: seq<Frame>, codec: Codec, k: nat)
    requires ArchiveHolds(c, header, version, fs, codec) && k < |fs|
    ensures && |header| + k < |c.index|
            && ParseFrameLine(c.index[|header| + k]).Some?
            && var (usec, offset) := ParseFrameLine(c.index[|header| + k]).value;
               && usec == fs[k].time.usec
               && 0 <= offset <= |c.data|
               && (IsByteImage(fs[k].image.traits) ==>
                     DecodeRecord(c.data[offset..], version, true)
                     == Some((RecordOf(version, true, fs[k], codec), |Encode(RecordOf(version, true, fs[k], codec))|)))
  {
    assert c.index[|header| + k] == IndexLines(fs, version, codec)[k];
    IndexLineReadsBack(fs, version, codec, k);
    RecordAtOffset(fs, version, codec, k);
  }

  /**
   * Reading the index file back line by line gives the index lines written,
   * provided the header lines hold no newline: the frame lines never do.
   */
  lemma IndexFileReadsBack(header: seq<string>, version: int, separateMeta: bool, fs: seq<Frame>, codec: Codec)
    requires forall i :: 0 <= i < |header| ==> '\n' !in header[i]
    ensures var c := RunContents(HeaderContents(header, version, separateMeta), fs, version, codec);
            SplitLines(IndexText(c.index)) == c.index
  {
    var c := RunContents(HeaderContents(header, version, separateMeta), fs, version, codec);
    RunHolds(header, version, separateMeta, fs, codec);
    HeldIndexReadsBack(c, header, version, fs, codec);
  }

  lemma HeldIndexReadsBack(c: Contents, header: seq<string>, version: int, fs: seq<Frame>, codec: Codec)
    requires ArchiveHolds(c, header, version, fs, codec)
    requires forall i :: 0 <= i < |header| ==> '\n' !in header[i]
    ensures SplitLines(IndexText(c.index)) == c.index
  {
    var lines := IndexLines(fs, version, codec);
    IndexLinesAreLines(fs, version, codec);
    forall i | 0 <= i < |c.index|
      ensures '\n' !in c.index[i]
    {
      if i >= |header| {
        assert c.index[i] == lines[i - |header|];
      }
    }
    SplitIndexText(c.index);
  }

  /** No frame line holds a newline. */
  lemma IndexLinesAreLines(fs: seq<Frame>, version: int, codec: Codec)
    ensures forall k :: 0 <= k < |fs| ==> '\n' !in IndexLines(fs, version, codec)[k]
  {
    forall k | 0 <= k < |fs|
      ensures '\n' !in IndexLines(fs, version, codec)[k]
    {
      IndexLineAt(fs, version, codec, k);
      FrameLineIsOneLine(fs[k].time.usec, 1 + |Records(fs[..k], version, true, codec)|);
    }
  }

  /**
   * The index file `_init` and the steps write for the archive `base` in
   * `directory` reads back line by line as the header and frame lines, when
   * the base name, mission id and stream id hold no newline; the directory
   * may hold anything, since only basenames are written.
   */
  lemma IndexFileOfRunReadsBack(directory: string, base: string, missionId: string, streamId: string,
                                version: int, separateMeta: bool, fs: seq<Frame>, codec: Codec)
    requires '\n' !in base && '\n' !in missionId && '\n' !in streamId
    ensures var header := HeaderLines(ArchivePath(directory, base, DataExtension),
                                      ArchivePath(directory, base, MetaExtension), true, missionId, streamId);
            var c := RunContents(HeaderContents(header, version, separateMeta), fs, version, codec);
            SplitLines(IndexText(c.index)) == c.index
  {
    HeaderLinesShape(directory, base, true, missionId, streamId);
    IndexFileReadsBack(HeaderLines(ArchivePath(directory, base, DataExtension),
                                   ArchivePath(directory, base, MetaExtension), true, missionId, streamId),
                       version, separateMeta, fs, codec);
  }

  lemma TakeOneMore<T>(s: seq<T>, k: nat)
    requires k < |s|
    ensures s[..k + 1] == s[..k] + [s[k]]
  {
  }

  lemma TakeFront<T>(s: seq<T>, x: T)
    ensures (s + [x])[..|s|] == s
  {
  }

  lemma TakeTake<T>(s: seq<T>, n: nat, k: nat)
    requires k <= n <= |s|
    ensures s[..n][..k] == s[..k]
  {
  }

  lemma SplitLast<T>(s: seq<T>)
    requires |s| > 0
    ensures s[..|s| - 1] + [s[|s| - 1]] == s
  {
  }

  lemma SplitAt<T>(s: seq<T>, k: nat)
    requires k < |s|
    ensures s == s[..k] + s[k..] && s[k..][1..] == s[k + 1..]
  {
  }

  lemma AppendAssoc<T>(a: seq<T>, b: seq<T>, c: seq<T>)
    ensures a + b + c == a + (b + c)
  {
  }

  lemma ConsAssoc<T>(x: T, a: seq<T>, b: seq<T>, c: seq<T>)
    ensures [x] + (a + b + c) == [x] + a + b + c
  {
  }

  /** Reading at the end of a prefix finds the record encoded there. */
  lemma DecodeAfter(prefix: seq<Token>, r: Record, rest: seq<Token>, version: int, withImage: bool)
    requires Fits(r.image, version, withImage)
    ensures (prefix + Encode(r) + rest)[|prefix|..] == Encode(r) + rest
    ensures DecodeRecord((prefix + Encode(r) + rest)[|prefix|..], version, withImage) == Some((r, |Encode(r)|))
  {
    assert (prefix + Encode(r) + rest)[|prefix|..] == Encode(r) + rest;
    DecodeEncode(r, version, withImage, rest);
  }

  /**
   * At the length of the data stream before frame k stands frame k's record
   * when its pixels passed the check; when they did not, that length is also
   * the length after frame k.
   */
  lemma RecordAtOffset(fs: seq<Frame>, version: int, codec: Codec, k: nat)
    requires k < |fs|
    ensures var data := [Int32(version)] + Records(fs, version, true, codec);
            var offset := |[Int32(version)] + Records(fs[..k], version, true, codec)|;
            && offset <= |data|
            && (IsByteImage(fs[k].image.traits) ==>
                  DecodeRecord(data[offset..], version, true)
                  == Some((RecordOf(version, true, fs[k], codec), |Encode(RecordOf(version, true, fs[k], codec))|)))
            && (!IsByteImage(fs[k].image.traits) ==>
                  offset == |[Int32(version)] + Records(fs[..k + 1], version, true, codec)|)
  {
    var prefix := [Int32(version)] + Records(fs[..k], version, true, codec);
    var emitted := Emitted(fs[k], version, true, codec);
    var after := Records(fs[k + 1..], version, true, codec);
    RecordsAround(fs, k, version, true, codec);
    ConsAssoc(Int32(version), Records(fs[..k], version, true, codec), emitted, after);
    if IsByteImage(fs[k].image.traits) {
      EmittedAfter(prefix, fs[k], after, version, codec);
    } else {
      RecordsSnoc(fs[..k], fs[k], version, true, codec);
      TakeOneMore(fs, k);
    }
  }


  /** A frame's record, emitted after any prefix, reads back from the end of that prefix. */
  lemma EmittedAfter(prefix: seq<Token>, f: Frame, rest: seq<Token>, version: int, codec: Codec)
    requires IsByteImage(f.image.traits)
    ensures DecodeRecord((prefix + Emitted(f, version, true, codec) + rest)[|prefix|..], version, true)
         == Some((RecordOf(version, true, f, codec), |Encode(RecordOf(version, true, f, codec))|))
  {
    RecordOfFits(version, true, f, codec);
    DecodeAfter(prefix, RecordOf(version, true, f, codec), rest, version, true);
  }

  /** The three component paths of one archive are distinct files. */
  lemma ArchivePathsDistinct(directory: string, base: string)
    ensures ArchivePath(directory, base, IndexExtension) != ArchivePath(directory, base, DataExtension)
    ensures ArchivePath(directory, base, IndexExtension) != ArchivePath(directory, base, MetaExtension)
    ensures ArchivePath(directory, base, MetaExtension) != ArchivePath(directory, base, DataExtension)
  {
    var p := directory + "/" + base;
    assert ArchivePath(directory, base, MetaExtension)[|p| + 1] == 'm';
    assert ArchivePath(directory, base, DataExtension)[|p| + 1] == 'd';
  }

  // ---------------------------------------------------------------------
  // The writer

  /** The stream a `write_frame_data` call is given. */
  datatype Target = DataTarget | MetaTarget

  /** Copies the homography's matrix entry by entry, as into a `vnl_matrix_fixed`. */
  method CopyTransform(m: Matrix3x3) returns (h: array2<Double>)
    ensures h.Length0 == 3 && h.Length1 == 3
    ensures forall x, y :: 0 <= x < 3 && 0 <= y < 3 ==> h[x, y] == m[x][y]
    ensures Entries(h) == RowMajor(m)
  {
    h := new Double[3, 3];
    for x := 0 to 3
      invariant forall i, j :: 0 <= i < x && 0 <= j < 3 ==> h[i, j] == m[i][j]
    {
      for y := 0 to 3
        invariant forall i, j :: 0 <= i < x && 0 <= j < 3 ==> h[i, j] == m[i][j]
        invariant forall j :: 0 <= j < y ==> h[x, j] == m[x][j]
      {
        h[x, y] := m[x][y];
      }
    }
    assert RowMajor(m) == [m[0][0], m[0][1], m[0][2], m[1][0], m[1][1], m[1][2], m[2][0], m[2][1], m[2][2]];
  }

  /** The entries of a 3x3 matrix in the order `vsl` writes them, row by row. */
  function Entries(h: array2<Double>): seq<Double>
    reads h
    requires h.Length0 == 3 && h.Length1 == 3
  {
    [h[0, 0], h[0, 1], h[0, 2], h[1, 0], h[1, 1], h[1, 2], h[2, 0], h[2, 1], h[2, 2]]
  }

  class ArchiveWriter {
    // Configuration values
    var outputDirectory: string
    var baseFilename: string
    var separateMeta: bool
    var missionId: string
    var streamId: string
    var compressImage: bool

    // Local storage: a None stream or a false adapter is a null pointer
    var indexStream: Option<OStream<string>>
    var metaStream: Option<OStream<Token>>
    var metaBStream: bool
    var dataStream: Option<OStream<Token>>
    var dataBStream: bool
    var dataVersion: int
    var imageWriteCache: seq<byte>

    /** The image compressor used for version 3 data streams. */
    const codec: Codec

    /** The messages logged at error level. */
    ghost var loggedErrors: seq<string>
    /** What the files hold once their streams are deleted. */
    ghost var disk: map<string, File>

    function IndexPath(): string
      reads this`outputDirectory, this`baseFilename
    {
      ArchivePath(outputDirectory, baseFilename, IndexExtension)
    }

    function MetaPath(): string
      reads this`outputDirectory, this`baseFilename
    {
      ArchivePath(outputDirectory, baseFilename, MetaExtension)
    }

    function DataPath(): string
      reads this`outputDirectory, this`baseFilename
    {
      ArchivePath(outputDirectory, baseFilename, DataExtension)
    }

    /** Every stream pointer is null. */
    ghost predicate Unopened()
      reads this
    {
      indexStream.None? && metaStream.None? && !metaBStream && dataStream.None? && !dataBStream
    }

    /**
     * The state after a successful `_init` and any number of steps: the
     * streams that exist are the configured ones, open and good, and the
     * data version is the one the compression flag chose.
     */
    ghost predicate Initialized()
      reads this
    {
      && indexStream.Some? && dataStream.Some? && dataBStream
      && (metaStream.Some? <==> separateMeta) && (metaBStream <==> separateMeta)
      && dataVersion == DataVersionFor(compressImage)
      && indexStream.value.path == IndexPath() && indexStream.value.isOpen && indexStream.value.good
      && dataStream.value.path == DataPath() && dataStream.value.isOpen && dataStream.value.good
      && (separateMeta ==> metaStream.value.path == MetaPath() && metaStream.value.isOpen && metaStream.value.good)
    }

    /** What the streams hold, once the index and data streams exist. */
    function StreamContents(): Contents
      reads this
      requires indexStream.Some? && dataStream.Some?
    {
      Contents(indexStream.value.contents, dataStream.value.contents,
               if metaStream.Some? then Some(metaStream.value.contents) else None)
    }

    /**
     * The private state as constructed: every stream pointer null and the
     * strings empty. The two flags are left unset in the source and are
     * given no value here that anything may rely on.
     */
    constructor (codec: Codec, ghost disk: map<string, File>)
      ensures Unopened() && this.codec == codec && this.disk == disk
      ensures loggedErrors == [] && imageWriteCache == []
      ensures outputDirectory == "" && baseFilename == "" && missionId == "" && streamId == ""
    {
      this.codec := codec;
      this.disk := disk;
      outputDirectory, baseFilename, missionId, streamId := "", "", "", "";
      separateMeta, compressImage := false, false;
      indexStream, metaStream, metaBStream, dataStream, dataBStream := None, None, false, None, false;
      dataVersion := 0;
      imageWriteCache := [];
      loggedErrors := [];
    }

    /** `_configure`: takes the six configuration values, each key not set taking its default. */
    method Configure(settings: Settings)
      modifies this`outputDirectory, this`baseFilename, this`separateMeta,
               this`missionId, this`streamId, this`compressImage
      ensures outputDirectory == ValueOr(settings.outputDirectory, DefaultConfig.outputDirectory)
      ensures baseFilename == ValueOr(settings.baseFilename, DefaultConfig.baseFilename)
      ensures separateMeta == ValueOr(settings.separateMeta, DefaultConfig.separateMeta)
      ensures missionId == ValueOr(settings.missionId, DefaultConfig.missionId)
      ensures streamId == ValueOr(settings.streamId, DefaultConfig.streamId)
      ensures compressImage == ValueOr(settings.compressImage, DefaultConfig.compressImage)
    {
      outputDirectory := ValueOr(settings.outputDirectory, DefaultConfig.outputDirectory);
      baseFilename := ValueOr(settings.baseFilename, DefaultConfig.baseFilename);
      separateMeta := ValueOr(settings.separateMeta, DefaultConfig.separateMeta);
      missionId := ValueOr(settings.missionId, DefaultConfig.missionId);
      streamId := ValueOr(settings.streamId, DefaultConfig.streamId);
      compressImage := ValueOr(settings.compressImage, DefaultConfig.compressImage);
    }

    /** Every configured stream is open, good and empty, and only those exist. */
    ghost predicate JustOpened()
      reads this
    {
      && indexStream == Some(OStream(IndexPath(), [], true, true))
      && dataStream == Some(OStream(DataPath(), [], true, true)) && dataBStream
      && (metaStream.Some? <==> separateMeta) && (metaBStream <==> separateMeta)
      && (separateMeta ==> metaStream == Some(OStream(MetaPath(), [], true, true)))
    }

    /**
     * `_init`: opens the index, then the metadata stream when it is kept
     * separately, then the data stream, stopping at the first that fails;
     * writes the five index header lines and the version words; and checks
     * that no stream failed while doing so.
     */
    method Init(fs: FileSystem) returns (r: Outcome<InitError>)
      requires Unopened()
      modifies this`indexStream, this`metaStream, this`metaBStream, this`dataStream,
               this`dataBStream, this`dataVersion
      ensures r == InitOutcome(IndexPath(), MetaPath(), DataPath(), separateMeta, fs)
      ensures r.Pass? ==> Initialized()
      ensures r.Pass? ==> StreamContents()
                          == HeaderContents(HeaderLines(DataPath(), MetaPath(), true, missionId, streamId),
                                            DataVersionFor(compressImage), separateMeta)
      ensures r.Pass? ==> indexStream.value.contents
                          == [IndexVersionLine, Basename(DataPath()), Basename(MetaPath()), missionId, streamId]
      ensures r.Pass? ==> dataStream.value.contents == [Int32(DataVersionFor(compressImage))]
      ensures r.Pass? && separateMeta ==> metaStream.value.contents == [Int32(MetaVersion)]
      // what every stream holds, whichever way `_init` ended
      ensures OpenOutcome(IndexPath(), MetaPath(), DataPath(), separateMeta, fs).Fail? ==>
                && indexStream == Some(Opened(IndexPath(), fs))
                && (metaStream.Some? ==> metaStream.value == Opened(MetaPath(), fs))
                && (dataStream.Some? ==> dataStream.value == Opened(DataPath(), fs))
                && dataVersion == old(dataVersion)
      ensures OpenOutcome(IndexPath(), MetaPath(), DataPath(), separateMeta, fs).Pass? ==>
                && indexStream == Some(HeaderWritten(Opened(IndexPath(), fs),
                                                     HeaderLines(DataPath(), MetaPath(), true, missionId, streamId), fs))
                && dataStream == Some(HeaderWritten(Opened(DataPath(), fs), [Int32(DataVersionFor(compressImage))], fs))
                && (separateMeta ==> metaStream == Some(HeaderWritten(Opened(MetaPath(), fs), [Int32(MetaVersion)], fs)))
                && dataVersion == DataVersionFor(compressImage)
      // which pointers are set, for teardown after a failure
      ensures indexStream.Some? && indexStream.value.path == IndexPath()
      ensures metaStream.Some? <==> separateMeta && IndexPath() in fs.openable
      ensures metaBStream <==> separateMeta && IndexPath() in fs.openable && MetaPath() in fs.openable
      ensures dataStream.Some? <==> IndexPath() in fs.openable && (!separateMeta || MetaPath() in fs.openable)
      ensures dataBStream <==> dataStream.Some?
    {
      r := OpenStreams(fs);
      if r.Fail? {
        return;
      }
      r := WriteHeaders(fs);
    }

    /** The opening half of `_init`: the three streams, in order, up to the first failure. */
    method OpenStreams(fs: FileSystem) returns (r: Outcome<InitError>)
      requires Unopened()
      modifies this`indexStream, this`metaStream, this`metaBStream, this`dataStream, this`dataBStream
      ensures r == OpenOutcome(IndexPath(), MetaPath(), DataPath(), separateMeta, fs)
      ensures r.Pass? ==> JustOpened()
      ensures indexStream == Some(Opened(IndexPath(), fs))
      ensures metaStream.Some? ==> metaStream.value == Opened(MetaPath(), fs)
      ensures dataStream.Some? ==> dataStream.value == Opened(DataPath(), fs)
      ensures indexStream.Some? && indexStream.value.path == IndexPath()
      ensures metaStream.Some? <==> separateMeta && IndexPath() in fs.openable
      ensures metaBStream <==> separateMeta && IndexPath() in fs.openable && MetaPath() in fs.openable
      ensures dataStream.Some? <==> IndexPath() in fs.openable && (!separateMeta || MetaPath() in fs.openable)
      ensures dataBStream <==> dataStream.Some?
    {
      var path := outputDirectory + "/" + baseFilename;
      var indexFilename := path + IndexExtension;
      var metaFilename := path + MetaExtension;
      var dataFilename := path + DataExtension;

      indexStream := Some(Opened(indexFilename, fs));
      if !indexStream.value.good {
        r := Fail(OpenFailed(indexFilename));
        return;
      }

      if separateMeta {
        metaStream := Some(Opened(metaFilename, fs));
        if !metaStream.value.good {
          r := Fail(OpenFailed(metaFilename));
          return;
        }
        metaBStream := true;
      }

      dataStream := Some(Opened(dataFilename, fs));
      dataBStream := true;
      if !dataStream.value.good {
        r := Fail(OpenFailed(dataFilename));
        return;
      }
      r := Pass;
    }

    /**
     * The header half of `_init`: the index header, the data version chosen
     * from the compression flag, the metadata version, then the health check.
     */
    method WriteHeaders(fs: FileSystem) returns (r: Outcome<InitError>)
      requires JustOpened()
      modifies this`indexStream, this`metaStream, this`dataStream, this`dataVersion
      ensures r == HeaderOutcome(IndexPath(), MetaPath(), DataPath(), separateMeta, fs)
      ensures r.Pass? ==> Initialized()
      ensures r.Pass? ==> StreamContents()
                          == HeaderContents(HeaderLines(DataPath(), MetaPath(), true, missionId, streamId),
                                            DataVersionFor(compressImage), separateMeta)
      ensures r.Pass? ==> indexStream.value.contents
                          == [IndexVersionLine, Basename(DataPath()), Basename(MetaPath()), missionId, streamId]
      ensures r.Pass? ==> dataStream.value.contents == [Int32(DataVersionFor(compressImage))]
      ensures r.Pass? && separateMeta ==> metaStream.value.contents == [Int32(MetaVersion)]
      ensures indexStream == Some(HeaderWritten(OStream(IndexPath(), [], true, true),
                                                HeaderLines(DataPath(), MetaPath(), true, missionId, streamId), fs))
      ensures dataStream == Some(HeaderWritten(OStream(DataPath(), [], true, true),
                                               [Int32(DataVersionFor(compressImage))], fs))
      ensures metaStream.Some? <==> separateMeta
      ensures separateMeta ==> metaStream == Some(HeaderWritten(OStream(MetaPath(), [], true, true),
                                                                [Int32(MetaVersion)], fs))
      ensures dataVersion == DataVersionFor(compressImage)
    {
      WriteHeaderRecords(fs);
      if !indexStream.value.good || !dataStream.value.good || (separateMeta && !metaStream.value.good) {
        r := Fail(HeaderWriteFailed);
        return;
      }
      ghost var header := HeaderLines(DataPath(), MetaPath(), true, missionId, streamId);
      assert indexStream.value.contents == [] + header == header;
      assert dataStream.value.contents == [] + [Int32(dataVersion)];
      assert separateMeta ==> metaStream.value.good && metaStream.value.contents == [] + [Int32(MetaVersion)];
      assert separateMeta ==> metaStream.value.contents == [Int32(MetaVersion)];
      assert !separateMeta ==> metaStream.None?;
      r := Pass;
    }

    /** The writes of the header half: each stream takes its header, or fails on a failing path. */
    method WriteHeaderRecords(fs: FileSystem)
      requires JustOpened()
      modifies this`indexStream, this`metaStream, this`dataStream, this`dataVersion
      ensures indexStream == Some(HeaderWritten(OStream(IndexPath(), [], true, true),
                                                HeaderLines(DataPath(), MetaPath(), true, missionId, streamId), fs))
      ensures dataStream == Some(HeaderWritten(OStream(DataPath(), [], true, true),
                                               [Int32(DataVersionFor(compressImage))], fs))
      ensures metaStream.Some? <==> separateMeta
      ensures separateMeta ==> metaStream == Some(HeaderWritten(OStream(MetaPath(), [], true, true),
                                                                [Int32(MetaVersion)], fs))
      ensures dataVersion == DataVersionFor(compressImage)
    {
      var path := outputDirectory + "/" + baseFilename;
      var metaFilename := path + MetaExtension;
      var dataFilename := path + DataExtension;

      // The metadata name is guarded by the data adapter, which is set by now.
      var header := HeaderLines(dataFilename, metaFilename, dataBStream, missionId, streamId);
      assert dataFilename == DataPath() && metaFilename == MetaPath();
      indexStream := Some(HeaderWritten(indexStream.value, header, fs));

      if compressImage {
        dataVersion := 3;
      } else {
        dataVersion := 2;
      }
      dataStream := Some(HeaderWritten(dataStream.value, [Int32(dataVersion)], fs));
      if metaBStream {
        metaStream := Some(HeaderWritten(metaStream.value, [Int32(MetaVersion)], fs));
      }
    }

    /** Whether `write_frame_data` may be given this stream: its adapter and stream exist. */
    predicate Writable(target: Target)
      reads this
    {
      match target
      case DataTarget => dataBStream && dataStream.Some?
      case MetaTarget => metaBStream && metaStream.Some?
    }

    function Stream(target: Target): OStream<Token>
      reads this
      requires Writable(target)
    {
      match target
      case DataTarget => dataStream.value
      case MetaTarget => metaStream.value
    }

    /** One `vsl_b_write` on the given stream. */
    method Emit(target: Target, t: Token)
      requires Writable(target)
      modifies this`dataStream, this`metaStream
      ensures Writable(target) && Stream(target) == Appended(old(Stream(target)), [t])
      ensures target == DataTarget ==> metaStream == old(metaStream)
      ensures target == MetaTarget ==> dataStream == old(dataStream)
    {
      match target
      case DataTarget => dataStream := Some(Appended(dataStream.value, [t]));
      case MetaTarget => metaStream := Some(Appended(metaStream.value, [t]));
    }

    /** One more field after those already written since `head`. */
    method EmitField(target: Target, ghost head: OStream<Token>, ghost written: seq<Token>, t: Token)
      requires Writable(target) && Stream(target) == Appended(head, written)
      modifies this`dataStream, this`metaStream
      ensures Writable(target) && Stream(target) == Appended(head, written + [t])
      ensures target == DataTarget ==> metaStream == old(metaStream)
      ensures target == MetaTarget ==> dataStream == old(dataStream)
    {
      Emit(target, t);
      AppendedTwice(head, written, [t]);
    }

    /**
     * The image block of `write_frame_data`: for version 3 the JPEG marker and
     * the compressed bytes, staged in the image cache; for version 2 the raw
     * view; for any other version nothing.
     */
    method WriteImageBlock(target: Target, image: ImageView)
      requires Writable(target)
      modifies this`dataStream, this`metaStream, this`imageWriteCache
      ensures Writable(target)
      ensures Stream(target) == Appended(old(Stream(target)), BlockTokens(ImageBlockFor(dataVersion, true, image, codec)))
      ensures target == DataTarget ==> metaStream == old(metaStream)
      ensures target == MetaTarget ==> dataStream == old(dataStream)
      ensures imageWriteCache == if dataVersion == 3 then codec(image) else old(imageWriteCache)
    {
      if dataVersion == 3 {
        Emit(target, Char(JpegMarker));
        imageWriteCache := codec(image);
        Emit(target, ByteVector(imageWriteCache));
        AppendedTwice(old(Stream(target)), [Char(JpegMarker)], [ByteVector(imageWriteCache)]);
      } else if dataVersion == 2 {
        Emit(target, RawImage(image));
      } else {
        // an unexpected version writes no image block
        AppendedNothing(Stream(target));
      }
    }

    /** The transform, the corners and the gsd of a record, one write each. */
    method WriteGeometry(target: Target, transform: seq<Double>, corners: seq<Vec2>, gsd: Double)
      requires Writable(target)
      modifies this`dataStream, this`metaStream
      ensures Writable(target)
      ensures Stream(target) == Appended(old(Stream(target)), [Matrix(transform), Vec2List(corners), Real(gsd)])
      ensures target == DataTarget ==> metaStream == old(metaStream)
      ensures target == MetaTarget ==> dataStream == old(dataStream)
    {
      ghost var head := Stream(target);
      AppendedNothing(head);
      EmitField(target, head, [], Matrix(transform));
      EmitField(target, head, [Matrix(transform)], Vec2List(corners));
      EmitField(target, head, [Matrix(transform), Vec2List(corners)], Real(gsd));
    }

    /** The frame number, the reference frame number and the two image extents, one write each. */
    method WriteFrameIds(target: Target, frameNum: int, refFrameNum: int, ni: int, nj: int)
      requires Writable(target)
      modifies this`dataStream, this`metaStream
      ensures Writable(target)
      ensures Stream(target)
              == Appended(old(Stream(target)), [Int64(frameNum), Int64(refFrameNum), Int64(ni), Int64(nj)])
      ensures target == DataTarget ==> metaStream == old(metaStream)
      ensures target == MetaTarget ==> dataStream == old(dataStream)
    {
      ghost var head := Stream(target);
      AppendedNothing(head);
      EmitField(target, head, [], Int64(frameNum));
      EmitField(target, head, [Int64(frameNum)], Int64(refFrameNum));
      EmitField(target, head, [Int64(frameNum), Int64(refFrameNum)], Int64(ni));
      EmitField(target, head, [Int64(frameNum), Int64(refFrameNum), Int64(ni)], Int64(nj));
    }

    /**
     * The fields of a record after its image block, one write each: the
     * transform, the corners, the gsd, the frame number, the reference frame
     * number and the two image extents.
     */
    method WriteTrailer(target: Target, transform: seq<Double>, corners: seq<Vec2>, gsd: Double,
                        frameNum: int, refFrameNum: int, ni: int, nj: int)
      requires Writable(target)
      modifies this`dataStream, this`metaStream
      ensures Writable(target)
      ensures Stream(target)
              == Appended(old(Stream(target)), [Matrix(transform), Vec2List(corners), Real(gsd), Int64(frameNum),
                                                Int64(refFrameNum), Int64(ni), Int64(nj)])
      ensures target == DataTarget ==> metaStream == old(metaStream)
      ensures target == MetaTarget ==> dataStream == old(dataStream)
    {
      ghost var head := Stream(target);
      WriteGeometry(target, transform, corners, gsd);
      WriteFrameIds(target, frameNum, refFrameNum, ni, nj);
      AppendedTwice(head, [Matrix(transform), Vec2List(corners), Real(gsd)],
                    [Int64(frameNum), Int64(refFrameNum), Int64(ni), Int64(nj)]);
    }

    /**
     * `write_frame_data`: checks the pixel type and, when it is one unsigned
     * byte, writes the frame's record field by field; otherwise it logs an
     * error and writes nothing at all.
     */
    method WriteFrameData(target: Target, writeImage: bool, f: Frame)
      requires Writable(target)
      modifies this`dataStream, this`metaStream, this`imageWriteCache, this`loggedErrors
      ensures Writable(target)
      ensures Stream(target) == Appended(old(Stream(target)), Emitted(f, dataVersion, writeImage, codec))
      ensures target == DataTarget ==> metaStream == old(metaStream)
      ensures target == MetaTarget ==> dataStream == old(dataStream)
      ensures imageWriteCache
              == if IsByteImage(f.image.traits) && writeImage && dataVersion == 3
                 then codec(ViewOf(f.image)) else old(imageWriteCache)
      ensures loggedErrors
              == old(loggedErrors) + if IsByteImage(f.image.traits) then [] else [PixelTypeError]
    {
      var uSeconds := f.time.usec;
      var frameNum := f.time.frame;
      var refFrameNum := f.homography.toId;

      if !IsByteImage(f.image.traits) {
        loggedErrors := loggedErrors + [PixelTypeError];
        AppendedNothing(Stream(target));
        return;
      }

      var image := ViewOf(f.image);
      var homog := CopyTransform(f.homography.matrix);
      var corners := CornerList(f.corners);
      ghost var start := Stream(target);
      ghost var block := BlockTokens(ImageBlockFor(dataVersion, writeImage, image, codec));

      Emit(target, Int64(uSeconds));
      if writeImage {
        WriteImageBlock(target, image);
        AppendedTwice(start, [Int64(uSeconds)], block);
      } else {
        AppendedTwice(start, [Int64(uSeconds)], block);
      }
      assert Stream(target) == Appended(start, [Int64(uSeconds)] + block);
      ghost var rec := RecordOf(dataVersion, writeImage, f, codec);
      assert rec == Record(uSeconds, ImageBlockFor(dataVersion, writeImage, image, codec),
                           Entries(homog), corners, f.gsd, frameNum, refFrameNum, image.ni, image.nj);
      WriteTrailer(target, Entries(homog), corners, f.gsd, frameNum, refFrameNum, image.ni, image.nj);
      AppendedTwice(start, [Int64(uSeconds)] + block, Trailer(rec));
      assert Stream(target) == Appended(start, Encode(rec));
      assert imageWriteCache == if writeImage && dataVersion == 3 then codec(image) else old(imageWriteCache);

    }

    /**
     * `_step`: writes the frame's index line, holding its timestamp and the
     * data stream's position before the frame, then the frame's record to
     * the data stream and, when its adapter is set, to the metadata stream.
     */
    method Step(f: Frame)
      requires Initialized()
      modifies this`indexStream, this`dataStream, this`metaStream, this`imageWriteCache, this`loggedErrors
      ensures Initialized()
      ensures StreamContents() == StepContents(old(StreamContents()), f, dataVersion, codec)
      ensures imageWriteCache
              == if IsByteImage(f.image.traits) && dataVersion == 3 then codec(ViewOf(f.image))
                 else old(imageWriteCache)
      ensures loggedErrors
              == old(loggedErrors) + if IsByteImage(f.image.traits) then []
                                     else if separateMeta then [PixelTypeError, PixelTypeError]
                                     else [PixelTypeError]
    {
      var offset := TellP(dataStream.value);
      indexStream := Some(Appended(indexStream.value, [FrameLine(f.time.usec, offset)]));

      WriteFrameData(DataTarget, true, f);
      if metaBStream {
        WriteFrameData(MetaTarget, false, f);
      }
    }

    /**
     * Teardown of the private state: deletes each stream, which flushes an
     * open file, and nulls each pointer, so that doing it again changes nothing.
     */
    method Close()
      modifies this`indexStream, this`metaStream, this`metaBStream, this`dataStream,
               this`dataBStream, this`disk
      ensures Unopened()
      ensures disk == FlushBinary(FlushBinary(FlushText(old(disk), old(indexStream)), old(metaStream)),
                                  old(dataStream))
      ensures old(Unopened()) ==> disk == old(disk)
    {
      disk := FlushText(disk, indexStream);
      indexStream := None;

      metaBStream := false;
      disk := FlushBinary(disk, metaStream);
      metaStream := None;

      dataBStream := false;
      disk := FlushBinary(disk, dataStream);
      dataStream := None;
    }
  }
}
