/**
 * A worked archive: one 4x4 single-plane byte raster written without
 * compression, read back field by field, and the whole writer driven from
 * construction through `_init`, one `_step` and teardown.
 */
module KwaScenario {
  import opened Opt
  import opened KwaIndex
  import opened KwaFormat
  import opened KwaWriter

  /** 0.0, 0.5 and 1.0 as IEEE-754 doubles. */
  const Zero := Double(0)
  const Half := Double(0x3FE0_0000_0000_0000)
  const One := Double(0x3FF0_0000_0000_0000)

  const Identity: Matrix3x3 := [[One, Zero, Zero], [Zero, One, Zero], [Zero, Zero, One]]

  /** A packed 4x4 raster of unsigned bytes, one plane, at address 0. */
  const Raster := Image(0, 4, 4, 1, 1, 4, 16, PixelTraits(Unsigned, 1))

  /** Timestamp 1000000 us, frame 7 mapped onto frame 3, corners of the unit square, gsd 0.5. */
  const SampleFrame := Frame(Timestamp(1000000, 7), Raster, Homography(Identity, 3),
                             CornerPoints(GeoPoint(Zero, Zero), GeoPoint(One, Zero),
                                          GeoPoint(One, One), GeoPoint(Zero, One)),
                             Half)

  /** The record a reader finds for the sample frame in a version 2 data stream. */
  const SampleRecord := Record(1000000, Raw(ImageView(0, 4, 4, 1, 1, 4, 16)),
                               [One, Zero, Zero, Zero, One, Zero, Zero, Zero, One],
                               [Vec2(Zero, Zero), Vec2(One, Zero), Vec2(One, One), Vec2(Zero, One)],
                               Half, 7, 3, 4, 4)

  /** The uncompressed record of the sample frame reads back as every field that went in. */
  lemma SampleRoundTrip(codec: Codec)
    ensures Emitted(SampleFrame, 2, true, codec) == Encode(SampleRecord)
    ensures Emitted(SampleFrame, 2, false, codec) == Encode(SampleRecord.(image := NoImage))
    ensures DecodeRecord(Emitted(SampleFrame, 2, true, codec), 2, true) == Some((SampleRecord, 9))
  {
    assert RowMajor(Identity) == SampleRecord.transform;
    assert RecordOf(2, true, SampleFrame, codec) == SampleRecord;
    MetaRecordDropsOnlyImage(2, SampleFrame, codec);
    DecodeEncode(SampleRecord, 2, true, []);
    assert Encode(SampleRecord) + [] == Encode(SampleRecord);
  }

  /** The header lines of the sample archive name the data and metadata files by basename. */
  lemma SampleHeaderLines()
    ensures HeaderLines("archive/clip.data", "archive/clip.meta", true, "mission", "stream")
            == ["4", "clip.data", "clip.meta", "mission", "stream"]
  {
    assert "archive/clip.data" == "archive" + "/" + "clip.data";
    assert "archive/clip.meta" == "archive" + "/" + "clip.meta";
    BasenameOfChild("archive", "clip.data");
    BasenameOfChild("archive", "clip.meta");
  }

  /**
   * A directory with a newline in it does not reach the index header: only
   * the basenames of the data and metadata paths are written.
   */
  lemma NewlineDirectoryHeaderLines()
    ensures HeaderLines(ArchivePath("a\nb", "clip", DataExtension), ArchivePath("a\nb", "clip", MetaExtension),
                        true, "mission", "stream")
            == ["4", "clip.data", "clip.meta", "mission", "stream"]
  {
    HeaderLinesShape("a\nb", "clip", true, "mission", "stream");
    assert "clip" + DataExtension == "clip.data" && "clip" + MetaExtension == "clip.meta";
  }

  /** The index line of a frame at 1000000 us whose record starts after the version token. */
  lemma SampleFrameLine()
    ensures FrameLine(1000000, 1) == "1000000 1"
  {
  }

  /** The three file names of the archive "clip" in directory "archive". */
  lemma SamplePaths()
    ensures ArchivePath("archive", "clip", IndexExtension) == "archive/clip.index"
    ensures ArchivePath("archive", "clip", MetaExtension) == "archive/clip.meta"
    ensures ArchivePath("archive", "clip", DataExtension) == "archive/clip.data"
  {
  }

  /** The header lines of the sample archive. */
  const SampleHeader := ["4", "clip.data", "clip.meta", "mission", "stream"]

  /**
   * A fresh writer configured for the archive "clip" in "archive" without
   * compression; the separate metadata file is not set and takes its default.
   */
  method ConfigureSample(codec: Codec) returns (w: ArchiveWriter)
    ensures fresh(w) && w.Unopened() && w.disk == map[] && w.codec == codec
    ensures w.IndexPath() == "archive/clip.index" && w.MetaPath() == "archive/clip.meta"
    ensures w.DataPath() == "archive/clip.data"
    ensures w.separateMeta && !w.compressImage && w.missionId == "mission" && w.streamId == "stream"
  {
    w := new ArchiveWriter(codec, map[]);
    w.Configure(Settings(Some("archive"), Some("clip"), None, Some("mission"), Some("stream"), Some(false)));
    SamplePaths();
  }

  /**
   * The writer configured without compression and initialized on a file
   * system where every path opens and no write fails.
   */
  method OpenSampleArchive(codec: Codec) returns (w: ArchiveWriter, r: Outcome<InitError>)
    ensures fresh(w) && r == Pass
    ensures w.Initialized() && w.disk == map[] && w.codec == codec
    ensures w.IndexPath() == "archive/clip.index" && w.MetaPath() == "archive/clip.meta"
    ensures w.DataPath() == "archive/clip.data"
    ensures w.separateMeta && w.dataVersion == 2
    ensures w.StreamContents() == HeaderContents(SampleHeader, 2, true)
  {
    w := ConfigureSample(codec);
    r := w.Init(FileSystem({"archive/clip.index", "archive/clip.meta", "archive/clip.data"}, {}));
    SampleHeaderLines();
  }

  /** The reason text of a failure to open the sample metadata file. */
  lemma SampleOpenReason()
    ensures OpenFailed("archive/clip.meta").Reason() == "Failed to open archive/clip.meta for writing"
  {
    assert "archive/clip.meta" == "archive/" + "clip.meta";
    assert "Failed to open " + "archive/" == "Failed to open archive/";
    assert "Failed to open archive/" + "clip.meta" == "Failed to open archive/clip.meta";
    assert "Failed to open archive/clip.meta" + " for writing" == "Failed to open archive/clip.meta for writing";
    AppendAssoc("Failed to open ", "archive/", "clip.meta");
  }

  /**
   * When only the index file can be opened, `_init` names the metadata file;
   * the index stream was opened and the metadata stream was not, and teardown
   * leaves an empty index file and nothing else.
   */
  method OpenFailsAtMeta(codec: Codec) returns (w: ArchiveWriter, r: Outcome<InitError>)
    ensures r == Fail(OpenFailed("archive/clip.meta"))
    ensures r.error.Reason() == "Failed to open archive/clip.meta for writing"
    ensures w.Unopened()
    ensures w.disk == map["archive/clip.index" := TextFile("")]
  {
    w := ConfigureSample(codec);
    r := w.Init(FileSystem({"archive/clip.index"}, {}));
    assert w.indexStream.value.isOpen && !w.metaStream.value.isOpen && w.dataStream.None?;
    w.Close();
    SampleOpenReason();
  }

  /**
   * When every file opens but writes to the index file fail, `_init` reports
   * the header failure; the binary files already hold their version words,
   * and teardown leaves them so beside an empty index file.
   */
  method HeaderFailsAtIndex(codec: Codec) returns (w: ArchiveWriter, r: Outcome<InitError>)
    ensures r == Fail(HeaderWriteFailed)
    ensures r.error.Reason() == "Failed while writing file headers"
    ensures w.Unopened()
    ensures w.disk == map["archive/clip.index" := TextFile(""),
                          "archive/clip.meta" := BinaryFile([Int32(2)]),
                          "archive/clip.data" := BinaryFile([Int32(2)])]
  {
    w := ConfigureSample(codec);
    r := w.Init(FileSystem({"archive/clip.index", "archive/clip.meta", "archive/clip.data"}, {"archive/clip.index"}));
    assert w.indexStream.value.contents == [] && !w.indexStream.value.good;
    assert w.metaStream.value.contents == [Int32(2)] && w.dataStream.value.contents == [Int32(2)];
    w.Close();
  }

  /** What the three streams of the sample archive hold once the sample frame is written. */
  lemma SampleStreams(codec: Codec)
    ensures StepContents(HeaderContents(SampleHeader, 2, true), SampleFrame, 2, codec)
         == Contents(SampleHeader + ["1000000 1"], [Int32(2)] + Encode(SampleRecord),
                     Some([Int32(2)] + Encode(SampleRecord.(image := NoImage))))
  {
    SampleFrameLine();
    SampleRoundTrip(codec);
  }

  /** The sample frame written to the freshly initialized sample archive. */
  method StepSampleFrame(w: ArchiveWriter)
    requires w.Initialized() && w.separateMeta && w.dataVersion == 2
    requires w.StreamContents() == HeaderContents(SampleHeader, 2, true)
    modifies w`indexStream, w`dataStream, w`metaStream, w`imageWriteCache, w`loggedErrors
    ensures w.Initialized()
    ensures w.StreamContents()
         == Contents(SampleHeader + ["1000000 1"], [Int32(2)] + Encode(SampleRecord),
                     Some([Int32(2)] + Encode(SampleRecord.(image := NoImage))))
  {
    w.Step(SampleFrame);
    SampleStreams(w.codec);
  }

  /**
   * The sample archive: the three files hold the header lines and one index
   * line, version 2 and the record, version 2 and the record without its image.
   */
  method WriteSampleArchive(codec: Codec) returns (w: ArchiveWriter)
    ensures w.Unopened()
    ensures w.disk == map["archive/clip.index" := TextFile(IndexText(SampleHeader + ["1000000 1"])),
                          "archive/clip.meta" := BinaryFile([Int32(2)] + Encode(SampleRecord.(image := NoImage))),
                          "archive/clip.data" := BinaryFile([Int32(2)] + Encode(SampleRecord))]
  {
    var r;
    w, r := OpenSampleArchive(codec);
    StepSampleFrame(w);
    ghost var index, meta, data := w.indexStream.value, w.metaStream.value, w.dataStream.value;
    w.Close();
    assert w.disk == map[][index.path := TextFile(IndexText(index.contents))][meta.path := BinaryFile(meta.contents)]
                          [data.path := BinaryFile(data.contents)];
  }
}
