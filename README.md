# KW archive writer

A Dafny model of the KW archive writer process
(`sprokit/processes/vxl/kw_archive_writer_process.cxx`). The process records
georegistered video frames into three files:

- `<base>.index`: text, each line ended by a newline. Five header lines,
  then one line per frame holding its timestamp and the data stream's
  position before the frame.
- `<base>.data`: binary. A version word (3 when images are JPEG-compressed,
  2 for raw image views), then one record per frame whose pixels pass the
  check (one-byte unsigned); any other frame gets no record.
- `<base>.meta`: binary and optional. Version word 2, then the same records
  without their images.

The model covers:

- `_configure`;
- `_init`, which opens the streams in order, writes the headers and checks
  their health;
- `_step`, which writes the index line and then the frame's record to the
  data stream and, when there is one, to the metadata stream;
- `priv::write_frame_data`;
- the teardown in `priv::~priv`.

Modules:

- `Opt` (`option.dfy`): `Option` and `Outcome`.
- `KwaIndex` (`kwa_index.dfy`): the index text. This covers decimal
  rendering and parsing of the frame line, the index file as newline-ended
  lines and its splitting back into lines, the archive paths, `basename`
  and the header lines.
- `KwaFormat` (`kwa_format.dfy`): the frame inputs and the record layout.
  Every `vsl_b_write` is one `Token`. The module also holds a decoder that
  reads records back; it is the reference the layout is proved against.
- `KwaWriter` (`kwa_writer.dfy`): the writer.
  - The class `ArchiveWriter` holds the configuration, the three streams, the
    two `vsl_b_ostream` adapters, the data version and the image cache.
  - Its methods change those fields the way `_init`, `_step`,
    `write_frame_data` and `~priv` do.
  - Beside the class is a value-level account of the archive.
    `HeaderContents` gives what `_init` writes, `StepContents` what one
    `_step` adds, and `RunContents` the contents after a run of steps.
    `ArchiveHolds` states what a run of frames must leave in the three streams.
- `KwaScenario` (`kwa_scenario.dfy`): a worked archive. One 4x4 byte frame
  goes through construction, `_init`, one `_step` and teardown, and the
  model gives the exact contents of the three files.

Streams are values in the writer's fields, owned by the writer alone. A
stream's write position (`tellp`) is the number of tokens written to it. A
failed stream reports -1 and ignores writes.

Where the code behaves in ways that are easy to misread, the model follows it:

- The metadata basename header line is guarded by the data adapter
  (`m_data_bstream`, line 219). That adapter is always set by this point.
  So the metadata basename is always written, even without a separate
  metadata file, and never the empty line.
- An image block for a version other than 2 or 3 is silently left out
  (lines 425-428); it is not a fatal error. The version is always 2 or 3,
  so this branch cannot be reached from `_init`.
- The per-step health checks (lines 291-295 and 302-306) test the stream
  pointers, not the streams' states. Their bodies are empty, so they have
  no effect.
- A frame that fails the pixel check is logged and skipped, for the data
  and the metadata call alike. Its index line is still written and points
  to where the next record will start.

## Model

| member | source | states |
|---|---|---|
| KwaIndex.ParseIntToDecimal | sprokit/processes/vxl/kw_archive_writer_process.cxx:284-285 | an int64 written to the index in decimal reads back as the same value, negative values included |
| KwaIndex.ParseFrameLineRoundTrip | sprokit/processes/vxl/kw_archive_writer_process.cxx:283-286 | an index frame line "usec offset" parses back to exactly its timestamp and offset |
| KwaIndex.DecimalForm | sprokit/processes/vxl/kw_archive_writer_process.cxx:284-285 | an int64 is written as '-' exactly when it is negative, then one or more digits without a leading zero |
| KwaIndex.NoSpaceInDecimal | sprokit/processes/vxl/kw_archive_writer_process.cxx:284-285 | a written integer holds neither a space nor a newline, so it is one field of one line |
| KwaIndex.FrameLineIsOneLine | sprokit/processes/vxl/kw_archive_writer_process.cxx:283-286 | a frame line "usec offset" holds no newline |
| KwaIndex.SplitIndexText | sprokit/processes/vxl/kw_archive_writer_process.cxx:215-230 | an index file whose lines hold no newline, each written followed by a newline, splits back into exactly those lines |
| KwaIndex.HeaderLinesShape | sprokit/processes/vxl/kw_archive_writer_process.cxx:173-230 | the header of the archive in a directory under a base name is five lines, "4" first, then two basenames free of '/' (the base name with its extension when it holds no '/', whatever the directory), then the mission and stream ids; each is one line when the base name and ids hold no newline, whatever the directory holds |
| KwaIndex.BasenameOfArchivePath | sprokit/processes/vxl/kw_archive_writer_process.cxx:173-221 | the basename of an archive path holds no newline when the base name and extension hold none, whatever the directory |
| KwaIndex.Basename | sprokit/processes/vxl/kw_archive_writer_process.cxx:217-221 | the basename is no longer than the path and holds no '/' |
| KwaIndex.BasenameIsLastComponent | sprokit/processes/vxl/kw_archive_writer_process.cxx:217 | the basename is a suffix of the path without '/', and it is either the whole path or preceded by '/' |
| KwaIndex.BasenameOfChild | sprokit/processes/vxl/kw_archive_writer_process.cxx:215-221 | the basename of "directory/name" is the file name alone, for any directory |
| KwaFormat.ViewOf | sprokit/processes/vxl/kw_archive_writer_process.cxx:370-377 | the byte view keeps the image's first pixel and its three steps; each extent is below 2^32 and equals the image's extent whenever that fits in 32 bits (the view takes `unsigned`) |
| KwaFormat.CornerListReadsBack | sprokit/processes/vxl/kw_archive_writer_process.cxx:392-396 | the corner list holds the four corners in p1..p4 order as (longitude, latitude) pairs and reads back as the same corners |
| KwaFormat.DecodeRecord | sprokit/processes/vxl/kw_archive_writer_process.cxx:398-437 | a record the reader accepts takes as many writes as its encoding, at least 8 and no more than are there, and its image block fits the stream version |
| KwaFormat.DecodeBlockIsExact | sprokit/processes/vxl/kw_archive_writer_process.cxx:401-429 | an image block is read only from exactly the writes that produce it |
| KwaFormat.DecodeRecordIsExact | sprokit/processes/vxl/kw_archive_writer_process.cxx:398-437 | the reader accepts a record only where the stream holds exactly that record's writes |
| KwaFormat.DecodeBlockTokens | sprokit/processes/vxl/kw_archive_writer_process.cxx:401-429 | the image block a stream version calls for reads back whole, whatever follows it |
| KwaFormat.DecodeFromParts | sprokit/processes/vxl/kw_archive_writer_process.cxx:431-437 | a timestamp, a readable image block and the seven trailing fields in the source's order read back as that record |
| KwaFormat.DecodeEncode | sprokit/processes/vxl/kw_archive_writer_process.cxx:398-437 | a record written in the source's field order reads back as the same record, whatever follows it |
| KwaFormat.MetaRecordDropsOnlyImage | sprokit/processes/vxl/kw_archive_writer_process.cxx:401-429 | the record written without the image equals the record written with it minus the image block, which sits right after the timestamp |
| KwaWriter.ValueOr | sprokit/processes/vxl/kw_archive_writer_process.cxx:78-83 | a configuration key that is set gives its value, a key that is not set gives the declared default |
| KwaWriter.Opened | sprokit/processes/vxl/kw_archive_writer_process.cxx:182-212 | a stream opened with truncation starts empty on its path, and is open and good exactly when the path can be opened |
| KwaWriter.HeaderWritten | sprokit/processes/vxl/kw_archive_writer_process.cxx:215-254 | a header write keeps the stream good exactly when it was good and its path does not fail; a good stream then holds the items after what it held, a failed one holds what it held |
| KwaWriter.TellPAdvances | sprokit/processes/vxl/kw_archive_writer_process.cxx:285 | each write moves a good stream's position on by the items written; a failed stream's position stays -1 |
| KwaWriter.EmittedReadsBack | sprokit/processes/vxl/kw_archive_writer_process.cxx:357-437 | a frame that fails the pixel check (lines 361-367) emits nothing; any other emits one record that reads back as the frame's timestamp, the version's image block, the transform row by row, the four corners, gsd, frame number, reference frame and the view's extents |
| KwaWriter.DataVersionFor | sprokit/processes/vxl/kw_archive_writer_process.cxx:232-240 | the data version is 3 exactly when compression is on, and 2 otherwise |
| KwaWriter.IndexLineAt | sprokit/processes/vxl/kw_archive_writer_process.cxx:283-286 | index line k holds frame k's timestamp and the data stream's length before frame k, whatever follows |
| KwaWriter.IndexLineReadsBack | sprokit/processes/vxl/kw_archive_writer_process.cxx:283-286 | index line k parses back to frame k's timestamp and the data stream's position before frame k |
| KwaWriter.SkippedFrameWritesNoRecord | sprokit/processes/vxl/kw_archive_writer_process.cxx:361-367 | a frame that fails the pixel check adds nothing to either binary stream, but still adds its index line, which points at where the next record starts |
| KwaWriter.DecodeStreamRecords | sprokit/processes/vxl/kw_archive_writer_process.cxx:288-301 | each binary stream body reads back as exactly the records of the frames that passed the pixel check, in order |
| KwaWriter.WrittenRecordsParity | sprokit/processes/vxl/kw_archive_writer_process.cxx:297-301 | the metadata stream has as many records as the data stream, and each is the data record without its image |
| KwaWriter.StreamsInLockStep | sprokit/processes/vxl/kw_archive_writer_process.cxx:288-307 | read back, data and metadata streams hold equally many records, pairwise equal up to the image; every data image is JPEG exactly in version 3 and raw exactly in version 2 |
| KwaWriter.RecordAtOffset | sprokit/processes/vxl/kw_archive_writer_process.cxx:283-290 | at frame k's recorded offset the data stream holds frame k's record when it passed the pixel check; otherwise the offset is also the length after frame k |
| KwaWriter.ArchiveHoldsAfterStep | sprokit/processes/vxl/kw_archive_writer_process.cxx:283-307 | one step turns the archive of a run of frames into the archive of that run plus the new frame |
| KwaWriter.RunHolds | sprokit/processes/vxl/kw_archive_writer_process.cxx:283-307 | after the headers and any run of steps, the index holds the header plus one line per frame, the data stream holds its version word plus every record, and the metadata stream holds version 2 plus every record without its image |
| KwaWriter.ArchiveIndexLocatesRecords | sprokit/processes/vxl/kw_archive_writer_process.cxx:283-290 | for any run of frames, index line k parses to frame k's timestamp and an offset into the data stream; when frame k's pixels passed the check, decoding at that offset gives frame k's record (when they did not, RecordAtOffset shows the offset is where the next record starts) |
| KwaWriter.IndexLinesAreLines | sprokit/processes/vxl/kw_archive_writer_process.cxx:283-286 | no frame line of the index holds a newline |
| KwaWriter.IndexFileReadsBack | sprokit/processes/vxl/kw_archive_writer_process.cxx:283-286 | for any run of frames, the index file text splits back into exactly the index lines written, provided the header lines hold no newline |
| KwaWriter.IndexFileOfRunReadsBack | sprokit/processes/vxl/kw_archive_writer_process.cxx:173-286 | for any directory, when the base name, mission id and stream id hold no newline, the index file `_init` and the steps write splits back into the header and frame lines, so line 5 + k is frame k's line |
| KwaWriter.ArchivePathsDistinct | sprokit/processes/vxl/kw_archive_writer_process.cxx:173-180 | the index, metadata and data paths of one archive are three different files |
| KwaWriter.CopyTransform | sprokit/processes/vxl/kw_archive_writer_process.cxx:379-390 | the copied 3x3 matrix holds every entry of the homography at the same position, and its row-by-row entries are the matrix's rows concatenated |
| KwaWriter.ArchiveWriter.constructor | sprokit/processes/vxl/kw_archive_writer_process.cxx:441-450 | a new writer has every stream and adapter pointer null, empty configuration strings, an empty image cache and nothing logged; the two flags get no promised value |
| KwaWriter.ArchiveWriter.Configure | sprokit/processes/vxl/kw_archive_writer_process.cxx:152-164 | each of the six configuration values becomes the one given, or its declared default (lines 78-83) when the key is not set |
| KwaWriter.ArchiveWriter.OpenStreams | sprokit/processes/vxl/kw_archive_writer_process.cxx:173-212 | the index, metadata (when separate) and data streams are opened in that order; the first that fails ends it with an error naming its path; every stream set so far is exactly the freshly opened stream on its path, and the adapters are set as the source sets them |
| KwaWriter.ArchiveWriter.WriteHeaderRecords | sprokit/processes/vxl/kw_archive_writer_process.cxx:214-248 | the index takes the header lines, the data stream its version word (3 with compression, 2 without) and the metadata stream, when there is one, version 2; each stream on a failing path fails and takes nothing |
| KwaWriter.ArchiveWriter.WriteHeaders | sprokit/processes/vxl/kw_archive_writer_process.cxx:214-254 | the header writes as above, then the health check: an error exactly when a stream written to fails; on success the index header is "4", the data basename, the metadata basename (always), the mission id and the stream id |
| KwaWriter.ArchiveWriter.Init | sprokit/processes/vxl/kw_archive_writer_process.cxx:169-255 | `_init` fails exactly as the ordered open checks and then the header health check say; after an open failure every stream set is exactly the freshly opened one, otherwise every stream is its opened stream with the header written; on success the streams hold exactly the headers and are open and good |
| KwaWriter.ArchiveWriter.Emit | sprokit/processes/vxl/kw_archive_writer_process.cxx:399 | one `vsl_b_write` appends its token to a good target stream and leaves the other stream as it was |
| KwaWriter.ArchiveWriter.WriteImageBlock | sprokit/processes/vxl/kw_archive_writer_process.cxx:401-429 | version 3 writes 'J' and the compressed bytes, staged in the cache; version 2 writes the raw view; any other version writes nothing |
| KwaWriter.ArchiveWriter.WriteGeometry | sprokit/processes/vxl/kw_archive_writer_process.cxx:431-433 | the transform, the corners and the gsd are appended in that order, and the other stream is untouched |
| KwaWriter.ArchiveWriter.WriteFrameIds | sprokit/processes/vxl/kw_archive_writer_process.cxx:434-437 | the frame number, the reference frame number, ni and nj are appended in that order, and the other stream is untouched |
| KwaWriter.ArchiveWriter.WriteTrailer | sprokit/processes/vxl/kw_archive_writer_process.cxx:431-437 | the seven fields after the image block are appended in the source's order, and the other stream is untouched |
| KwaWriter.ArchiveWriter.WriteFrameData | sprokit/processes/vxl/kw_archive_writer_process.cxx:346-438 | a frame with one-byte unsigned pixels appends exactly its record, the image block only when asked; any other frame appends nothing and logs the pixel-type error |
| KwaWriter.ArchiveWriter.Step | sprokit/processes/vxl/kw_archive_writer_process.cxx:258-308 | a step appends the index line (timestamp, data length before the frame), the data record with image and, when metadata is separate, the record without image; the writer stays initialized |
| KwaWriter.ArchiveWriter.Close | sprokit/processes/vxl/kw_archive_writer_process.cxx:453-472 | teardown flushes every open stream to its file and nulls every pointer, so a second teardown leaves the files unchanged |
| KwaScenario.SamplePaths | sprokit/processes/vxl/kw_archive_writer_process.cxx:173-180 | directory "archive" and base "clip" give the paths archive/clip.index, archive/clip.meta and archive/clip.data |
| KwaScenario.NewlineDirectoryHeaderLines | sprokit/processes/vxl/kw_archive_writer_process.cxx:173-230 | with a newline in the directory "a\nb", the header lines are still "4", "clip.data", "clip.meta", "mission" and "stream" |
| KwaScenario.SampleHeaderLines | sprokit/processes/vxl/kw_archive_writer_process.cxx:214-230 | the sample archive's header lines are "4", "clip.data", "clip.meta", "mission" and "stream" |
| KwaScenario.SampleFrameLine | sprokit/processes/vxl/kw_archive_writer_process.cxx:283-286 | the first frame at 1000000 us is indexed at offset 1, just after the version word |
| KwaScenario.SampleRoundTrip | sprokit/processes/vxl/kw_archive_writer_process.cxx:398-437 | the sample frame's version-2 record is nine writes long and reads back as the expected field values; the metadata record is the same without the raw view |
| KwaScenario.ConfigureSample | sprokit/processes/vxl/kw_archive_writer_process.cxx:152-164 | configuring directory "archive", base "clip", no compression and leaving the separate-metadata key unset gives a separate metadata file and the three sample paths |
| KwaScenario.OpenSampleArchive | sprokit/processes/vxl/kw_archive_writer_process.cxx:169-255 | with every path openable, `_init` succeeds, chooses version 2 without compression and writes the sample header |
| KwaScenario.OpenFailsAtMeta | sprokit/processes/vxl/kw_archive_writer_process.cxx:182-199 | when only the index file opens, `_init` fails naming archive/clip.meta with the reason "Failed to open archive/clip.meta for writing", and teardown leaves one empty index file and nothing else |
| KwaScenario.SampleOpenReason | sprokit/processes/vxl/kw_archive_writer_process.cxx:196-199 | the reason for failing to open the sample metadata file reads "Failed to open archive/clip.meta for writing" |
| KwaScenario.HeaderFailsAtIndex | sprokit/processes/vxl/kw_archive_writer_process.cxx:214-254 | when writes to the index fail, `_init` reports the header failure with the reason "Failed while writing file headers", and teardown leaves an empty index file beside two binary files holding their version words |
| KwaScenario.SampleStreams | sprokit/processes/vxl/kw_archive_writer_process.cxx:283-301 | one step of the sample frame gives the index line "1000000 1" and the two records |
| KwaScenario.StepSampleFrame | sprokit/processes/vxl/kw_archive_writer_process.cxx:283-301 | one `_step` of the sample frame on the fresh sample archive leaves the index line "1000000 1", the data record and the metadata record without image |
| KwaScenario.WriteSampleArchive | sprokit/processes/vxl/kw_archive_writer_process.cxx:453-472 | after construction, `_init`, one step and teardown, the three files hold exactly the sample archive, the index as its six lines each ended by a newline |

## Left out

- Directory creation (`vul_file::make_directory_path`, line 176) is not modelled. Which paths can be opened and which writes fail is a `FileSystem` parameter of `Init`.
- The port and configuration declarations (`make_ports`, `make_config`) and reading the input ports are left out. `Step` takes the frame's timestamp, image, homography, corners and gsd as a `Frame` value.
- Exceptions thrown from `_init` are modelled as a returned `Outcome` that carries the error and its reason text. The process name that the exception carries is left out.
- The byte encodings of `vsl_b_write` are not modelled: each call is one `Token`, so the index offsets count writes, not bytes. The raw image token is the view itself; pixel memory and strided reads are not modelled.
- WriteImageBlock: the JPEG compressor (`vil_jpeg_file_format` writing to a memory stream) is an opaque `Codec` function of the view. The image cache holds its result.
- Doubles are only copied, so they are kept as 64-bit patterns. Integer fields are unbounded; the model does not use fixed-width arithmetic beyond the 32-bit cut of the image extents.
- Step: requires the streams to be good. A write failure after `_init` is not modelled, because the source's per-step checks test pointers and have empty bodies.
- Logging is a ghost list of error messages. Debug logging is left out.
- ArchiveWriter.constructor: `m_separate_meta` and `m_compress_image` are left uninitialised by the private constructor (lines 441-450). The model gives them a value but promises none; `_configure` always sets them before `_init` reads them.
- `m_data_version` is not initialised by the private constructor. The model sets it to 0; `_init` always sets it before it is read.
- The header that a `vsl_b_ostream` constructor writes to its stream before anything else (lines 202 and 207) is not modelled: the binary files are modelled from the version word on.
- `clear_serialisation_records` (line 398), which resets the adapter's pointer-sharing records before each frame, is not modelled: the writer serialises no pointers, so the records play no part in the layout.
- IndexFileReadsBack: the index file splits back into its lines only when the header lines hold no newline. A base name, mission id or stream id with a newline in it shifts every later line (a newline in the directory does not, since only basenames are written), and ArchiveIndexLocatesRecords, stated on lines, then no longer describes the file.
- A header write to a failing path is modelled as writing nothing; how much of a partly written header reaches the file is not modelled.
- `Basename` follows Unix paths, with '/' as the only separator.
- The destructor of the outer process object and the `d` pointer are left out. `Close` models the teardown of the private state.
