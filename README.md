# MEDIVISION-XR upload and display core, in Dafny

This project models the first-party logic underneath the MEDIVISION-XR browser
DICOM viewer (a React/TypeScript application) and proves properties of it. It
covers five pieces:

- **Upload selection.** `processFiles` in `FileUpload.tsx` rejects a blank
  series name. It keeps top-level files by suffix or MIME type, and expands
  `.zip` archives in place, keeping the entries that are DICOM-like.
- **Ingestion.** `handleUploadComplete` in `App.tsx` sorts the files by name
  and reads the series metadata and body region from the first one. Each file
  with pixel data becomes one display slice, stretched to 0..255 by the
  slice's own extremes. It also becomes one layer of a flat volume,
  normalised to [0, 1] by the extremes of the whole series. The two
  normalisations are kept apart.
- **The DICOM helpers.** In `dicomParser.ts`: the metadata record
  (`parseDicomFile`) and the pixel-spacing split at backslashes; pixel
  extraction, truncated to rows·columns (`getPixelData`); and the ordered
  keyword classifier `detectBodyRegion`.
- **The 2D viewer.** In `SliceViewer.tsx`: the brightness/contrast pass that
  writes a fresh buffer, the mouse-wheel step clamped to the slice list, and
  the middle slice chosen when a series arrives.
- **The 3D window presets.** In `volumeRenderer.ts`: the per-region window
  table, and the colour and opacity control points derived from it.

Files and modules:

| file | modules |
|---|---|
| `types.dfy` | `Types`: shared records. These are `Option`, `Result`, the six-valued `BodyRegion`, 16-bit `Sample` and `DicomMetadata`. |
| `strings.dfy` | `Strings`: the JavaScript string operations the core uses. These are ASCII `toLowerCase`, `includes`, `endsWith`, `split` on one character, and ECMAScript `trim`. |
| `dicom_parser.dfy` | `DicomParser` and `DicomParserExamples` |
| `canvas.dfy` | `Canvas`: the `ImageData` class, a width, a height and an RGBA array |
| `slice_viewer.dfy` | `SliceViewer` |
| `volume_renderer.dfy` | `VolumeRenderer` |
| `file_upload.dfy` | `FileUpload` |
| `ingestion.dfy` | `Ingestion` and `IngestionExamples` |

The DICOM library is abstracted as a `DataSet`. It holds:

- the text tags the core reads;
- rows, columns and slice thickness, already decoded;
- the raw 16-bit words of the pixel-data element.

A library exception is `None`. JSZip is a given list of `(path, isDirectory)`
entries, or `None` when the archive cannot be read. Channel values and
intensities are `real`. Slice images are instances of the `Canvas.ImageData`
class, and the volume is an `array<real>`. Both are written in place by
methods with loop invariants. Those methods are proved against specification
functions (`SliceImage`, `Volume`, `Adjusted`, `Selected`), and the properties
are proved about those functions.

One thing the code does is kept as written rather than fixed. The volume holds
values in [0, 1], but every preset window is in raw scanner units: [-1350, 150]
for the chest and [-135, 215] for the rest. `UnitVolumeInsideOneSegment` states
where [0, 1] falls in each preset.

## Model

| member | source | states |
|---|---|---|
| Strings.LowerChar | src/utils/dicomParser.ts:58 | An ASCII upper-case letter maps to its lower-case letter; every other character is unchanged. |
| Strings.ToLower | src/utils/dicomParser.ts:58 | The result has the same length, and each character is lowered one for one. |
| Strings.ToLowerAppend | src/utils/dicomParser.ts:58 | Lowering distributes over concatenation, so lowering the joined search text equals joining the lowered fields. |
| Strings.Split | src/utils/dicomParser.ts:20-23 | `split('\\')` yields at least one field, and no field contains the separator. |
| Strings.JoinSplit | src/utils/dicomParser.ts:20-23 | Joining the split fields with the separator gives back the original string. |
| Strings.SplitJoin | src/utils/dicomParser.ts:20-23 | Splitting a join of separator-free fields gives back exactly those fields. |
| Strings.SplitCount | src/utils/dicomParser.ts:20-23 | The number of fields is the number of separators plus one. |
| Strings.TrimStart | src/components/FileUpload.tsx:24 | The result is a suffix of the input. Every dropped leading character is whitespace, and the result does not start with whitespace. |
| Strings.TrimEnd | src/components/FileUpload.tsx:24 | The result is a prefix of the input. Every dropped trailing character is whitespace, and the result does not end with whitespace. |
| Strings.TrimEmptyIff | src/components/FileUpload.tsx:24 | `trim()` is empty exactly when every character is ECMAScript whitespace or a line terminator. |
| Strings.Trim | src/components/FileUpload.tsx:24 | `trim()`: a contiguous piece of the input, no longer than it, that neither starts nor ends with whitespace. TrimEmptyIff says when it is empty. |
| Strings.Contains | src/utils/dicomParser.ts:60-69 | `includes`: the keyword occurs at some position of the text. MissingCharNotContained gives the test that rules a keyword out. |
| Strings.EndsWith | src/components/FileUpload.tsx:35-46 | `endsWith`: the suffix is no longer than the text and equals its last characters. |
| DicomParser.StringValue | src/utils/dicomParser.ts:32-42 | A tag's text is present exactly when its element is, and it is that element's text. |
| DicomParser.ParseDicomFile | src/utils/dicomParser.ts:4-30 | A parse failure gives the empty record. Otherwise each of patient name, study date, modality, body part, series description, rows, columns and slice thickness is the tag's value. `pixelSpacing` is set exactly when the tag is present and non-empty; it then has one entry per backslash-separated field, and the entries joined back give the tag text. |
| DicomParser.GetPixelData | src/utils/dicomParser.ts:75-99 | Null exactly when parsing fails or the pixel element is absent. Otherwise the result is the first rows·columns words (all of them when there are fewer), and a missing dimension counts as 0. |
| DicomParser.SearchText | src/utils/dicomParser.ts:58 | The lower-cased text "body part, description, series name" joined by spaces, with absent fields empty. DetectBodyRegionIgnoresCase and the examples state what it matches. |
| DicomParser.DetectBodyRegion | src/utils/dicomParser.ts:57-73 | The if/else chain over the keyword groups. Its meaning is stated by DetectBodyRegionIsFirstMatch and DetectBodyRegionCases. |
| DicomParser.DetectBodyRegionIsFirstMatch | src/utils/dicomParser.ts:57-73 | The if/else chain equals the first matching group of an ordered rule table: chest, upper abdomen, abdomen, neck, full body, else unknown. |
| DicomParser.DetectBodyRegionCases | src/utils/dicomParser.ts:57-73 | For each region, the conditions under which it is returned, in both directions. A region is returned exactly when one of its keywords occurs and no earlier group's keyword does. `unknown` is returned exactly when no keyword occurs. |
| DicomParser.DetectBodyRegionIgnoresCase | src/utils/dicomParser.ts:58 | Metadata and names that differ only in letter case get the same region. |
| DicomParserExamples.UpperAbdomenAcrossFields | src/utils/dicomParser.ts:58-63 | Body part "UPPER" with description "ABDOMEN" matches "upper abdomen" across the field boundary. |
| DicomParserExamples.ChestOutranksAbdomen | src/utils/dicomParser.ts:60-61 | "chest abdomen" is classified as chest. |
| DicomParserExamples.SeriesNameAlone | src/utils/dicomParser.ts:58-61 | With no metadata, the series name alone decides the region. |
| DicomParserExamples.UpperAndLowerCaseAgree | src/utils/dicomParser.ts:58 | "CHEST CT" and "chest ct" both give chest. |
| DicomParserExamples.UpperAbdomenBeforeAbdomen | src/utils/dicomParser.ts:62-65 | "upper abdomen" wins over the generic abdomen keywords. |
| DicomParserExamples.NeckWithoutTrunkKeywords | src/utils/dicomParser.ts:66-67 | A neck keyword with no chest or abdomen keyword gives `human_neck`. |
| DicomParserExamples.WholeBodyLast | src/utils/dicomParser.ts:68-69 | "whole body" gives `full_body`. |
| DicomParserExamples.NoKeywordUnknown | src/utils/dicomParser.ts:72 | Text with no keyword gives `unknown`. |
| DicomParserExamples.PixelSpacingFields | src/utils/dicomParser.ts:20-23 | "0.7\0.7" gives two fields, and an empty spacing text leaves the field unset. |
| DicomParserExamples.PixelDataTruncation | src/utils/dicomParser.ts:85-94 | A missing row count gives an empty, non-null array. 2×2 takes the first four words, an oversized request keeps all of them, and no pixel element gives null. |
| VolumeRenderer.Preset | src/utils/volumeRenderer.ts:19-26 | The table is total over the six regions, and every window width is positive. |
| VolumeRenderer.Low | src/utils/volumeRenderer.ts:71 | The lower end of the window, half a width below the centre. WindowOrdered and PresetWindows state its position. |
| VolumeRenderer.High | src/utils/volumeRenderer.ts:72 | The upper end of the window, half a width above the centre. WindowOrdered and PresetWindows state its position. |
| VolumeRenderer.WindowOrdered | src/utils/volumeRenderer.ts:70-72 | With a positive width, low < center < high, high − low is the width, and the centre is midway. |
| VolumeRenderer.PresetWindows | src/utils/volumeRenderer.ts:70-72 | The chest window spans [−1350, 150]; every other region's spans [−135, 215]. |
| VolumeRenderer.ColorPoints | src/utils/volumeRenderer.ts:74-77 | There are three colour points, at low, center and high: black, (1, 0.76, 0.65) and white. Every channel lies in [0, 1] and never decreases. |
| VolumeRenderer.OpacityPoints | src/utils/volumeRenderer.ts:79-82 | There are three opacity points, at low, center and high, with opacity 0, 0.2 and 1. Opacity stays in [0, 1] and never decreases. |
| VolumeRenderer.PresetControlPointsAscend | src/utils/volumeRenderer.ts:70-82 | For every preset the control points strictly ascend, and opacity is non-decreasing along them. |
| VolumeRenderer.UnitVolumeInsideOneSegment | src/utils/volumeRenderer.ts:70-82 | Every volume value in [0, 1] lies strictly inside one segment of the preset: centre..high for the chest, low..centre for the others. |
| SliceViewer.AdjustChannel | src/components/SliceViewer.tsx:40-42 | An adjusted channel always lies in [0, 255]. |
| SliceViewer.ResetIsIdentity | src/components/SliceViewer.tsx:40-42 | At brightness 1 and contrast 1, a channel in [0, 255] is unchanged. |
| SliceViewer.AdjustChannelMonotone | src/components/SliceViewer.tsx:40-42 | With non-negative contrast, the adjustment preserves channel order. |
| SliceViewer.BrightnessMonotone | src/components/SliceViewer.tsx:40-42 | Raising the brightness never darkens a channel. |
| SliceViewer.Adjusted | src/components/SliceViewer.tsx:34-44 | The buffer keeps its length. Alpha is copied, and red, green and blue go through the channel adjustment. |
| SliceViewer.AdjustedChannelsInRange | src/components/SliceViewer.tsx:34-44 | Every colour value of the adjusted buffer is in [0, 255], and alpha is the original. |
| SliceViewer.ResetReproducesImage | src/components/SliceViewer.tsx:34-44 | At the reset settings, an image whose channels are bytes is redrawn unchanged. |
| SliceViewer.DrawAdjusted | src/components/SliceViewer.tsx:26-44 | The stored slice is only read. The output is a fresh image of the same width and height whose buffer is the adjusted buffer. |
| SliceViewer.AdjustPixels | src/components/SliceViewer.tsx:34-44 | The stride-4 loop writes exactly the adjusted buffer into the output array. |
| SliceViewer.WheelStep | src/components/SliceViewer.tsx:54-58 | A positive delta moves one slice forward and any other delta one slice back, clamped to [0, len − 1]. An empty list gives 0. |
| SliceViewer.MiddleSlice | src/components/SliceViewer.tsx:14-18 | A non-empty list selects floor(len/2), an index inside it with the halves differing by at most one. An empty list keeps the index. |
| SliceViewer.WheelStepsInRange | src/components/SliceViewer.tsx:57 | Any run of wheel steps from a valid index stays a valid index. |
| SliceViewer.WheelSteps | src/components/SliceViewer.tsx:54-58 | The index after a run of wheel events, one `handleWheel` step per event. WheelStepsInRange keeps it valid. |
| SliceViewer.ShouldDraw | src/components/SliceViewer.tsx:21 | The drawing effect's guard: a non-empty list and an index below its length. NavigationKeepsDrawable shows it always holds. |
| SliceViewer.NavigationKeepsDrawable | src/components/SliceViewer.tsx:14-21 | After the middle-slice choice and any wheel steps, the drawing condition holds. |
| FileUpload.ProcessFiles | src/components/FileUpload.tsx:23-57 | The outcome is exactly `Upload`. A blank name comes first, then an unreadable archive, then "no DICOM files"; otherwise the callback gets the kept files. |
| FileUpload.CollectFiles | src/components/FileUpload.tsx:30-49 | The pass reports an unreadable archive exactly when one was picked; otherwise it returns every file's contribution in input order. |
| FileUpload.ExpandArchive | src/components/FileUpload.tsx:39-45 | The entry loop returns exactly the kept entries, in enumeration order. |
| FileUpload.IsArchive | src/components/FileUpload.tsx:35 | A picked file is opened as an archive exactly when its name ends in ".zip". |
| FileUpload.KeepTopLevel | src/components/FileUpload.tsx:46 | A non-archive file is kept when its name ends in ".dcm" or its type is `application/dicom`. |
| FileUpload.KeepEntry | src/components/FileUpload.tsx:40 | An archive entry is kept when it is not a directory and its path ends in ".dcm" or has no '.'. KeptEntriesMembership and EntryRuleExamples state its consequences. |
| FileUpload.KeptEntries | src/components/FileUpload.tsx:39-45 | The kept entries of one archive, in enumeration order, each named by its path and typed DICOM. KeptEntriesMembership states its members both ways. |
| FileUpload.Contribution | src/components/FileUpload.tsx:35-48 | What one picked file adds: the kept entries of a readable archive, itself when kept, otherwise nothing. |
| FileUpload.Gathered | src/components/FileUpload.tsx:32-49 | The contributions of the files, concatenated in input order. SelectedAppend states that this distributes over concatenation. |
| FileUpload.Selected | src/components/FileUpload.tsx:30-49 | The files handed on by the pass. SelectedMembership states its members both ways, and SelectedAppend its order. |
| FileUpload.YieldedBy | src/components/FileUpload.tsx:35-48 | The two ways a picked file yields a file: a kept non-archive yields itself, and a readable archive yields its kept entries. |
| FileUpload.Upload | src/components/FileUpload.tsx:23-57 | The outcome of the upload attempt. ProcessFiles computes it, and UploadOutcomes characterises each outcome. |
| FileUpload.SelectedAppend | src/components/FileUpload.tsx:32-49 | Selection distributes over concatenation, so order is preserved and archives expand in place. |
| FileUpload.KeptEntriesMembership | src/components/FileUpload.tsx:40-42 | A file is kept from an archive exactly when some entry is not a directory, its path ends in ".dcm" or has no '.', and the file is that path typed application/dicom. |
| FileUpload.SelectedMembership | src/components/FileUpload.tsx:35-48 | Both directions: a file is handed on exactly when some picked file yields it. A picked non-zip file yields itself when its name ends in ".dcm" or its type is DICOM. A readable picked archive yields each of its kept entries. |
| FileUpload.UploadOutcomes | src/components/FileUpload.tsx:23-57 | The name is rejected exactly when it is all whitespace. The callback is called exactly when the name is not blank, every archive was readable and something was kept, and then with the kept files and the untrimmed name. |
| FileUpload.EntryRuleExamples | src/components/FileUpload.tsx:40 | A '.' in a folder name hides extension-less files, ".dcm" entries are kept anywhere, and directories and other suffixes are dropped. |
| Ingestion.NameLeTotal | src/App.tsx:75 | Any two names are comparable. |
| Ingestion.NameLeTransitive | src/App.tsx:75 | The name order is transitive. |
| Ingestion.Insert | src/App.tsx:75 | One insertion step returns a permutation of the list plus the file. |
| Ingestion.SortByName | src/App.tsx:75 | Sorting returns a permutation of the picked files. |
| Ingestion.InsertSorted | src/App.tsx:75 | Inserting into a sorted list keeps it sorted. |
| Ingestion.SortByNameSorted | src/App.tsx:75 | The sorted files are in name order. |
| Ingestion.SortedFirstIsSmallest | src/App.tsx:75-78 | The file the metadata is read from is a picked file with the smallest name. |
| Ingestion.DimOr512 | src/App.tsx:92-93 | `n \|\| 512` is positive, and it is the decoded value when that is present and non-zero. |
| Ingestion.FrameOf | src/App.tsx:87-95 | A file's pixel words with its canvas size (`columns \|\| 512` by `rows \|\| 512`), or nothing when there is no pixel data. FrameOfFits states both. |
| Ingestion.Frames | src/App.tsx:86-95 | The frames of the files in order, skipping files without pixel data. FramesMembership, FramesCount and FramesAppend state this. |
| Ingestion.PixelFileIndices | src/App.tsx:88-95 | The positions of the files that have pixel data. |
| Ingestion.FrameOfFits | src/App.tsx:88-93 | A file yields a frame exactly when it parses and has a pixel element. The frame's samples never outnumber the pixels of its own canvas. |
| Ingestion.FramesAppend | src/App.tsx:86-95 | Frames distribute over concatenation, so file order is kept. |
| Ingestion.NoPixelDataSkipped | src/App.tsx:88-95 | A file without pixel data adds neither a slice nor a layer, wherever it sits. |
| Ingestion.FramesMembership | src/App.tsx:86-95 | A frame is present exactly when some file yields it. |
| Ingestion.FramesCount | src/App.tsx:86-124 | Depth equals the number of files with pixel data. So it is at most the number of files, equal to it exactly when every file has pixel data, and zero exactly when none has. |
| Ingestion.FramesDepth | src/App.tsx:86-124 | One layer per file with pixel data: the depth is the number of positions whose file yields a frame. |
| Ingestion.FirstFrame | src/App.tsx:86-95 | The first frame comes from the first file with pixel data. |
| Ingestion.FirstLayerHasSmallestName | src/App.tsx:75-95 | Slice 0 and layer 0 come from the smallest-named file among those with pixel data, whatever the upload order. |
| Ingestion.MinOf | src/App.tsx:128-136 | The running minimum stays at its start value (`Infinity`) exactly when there are no samples. |
| Ingestion.MaxOf | src/App.tsx:128-136 | The running maximum stays at its start value (`-Infinity`) exactly when there are no samples. |
| Ingestion.MinOfBounds | src/App.tsx:128-136 | The running minimum is one of the samples, and no sample is smaller. |
| Ingestion.MaxOfBounds | src/App.tsx:128-136 | The running maximum is one of the samples, and no sample is larger. |
| Ingestion.MinLeMax | src/App.tsx:128-138 | For a non-empty run of samples, minimum ≤ maximum, so `max - min` is never negative. |
| Ingestion.RangeOr1 | src/App.tsx:108 | `max - min \|\| 1` is positive, and it is the spread whenever that is non-zero. |
| Ingestion.RgbaBuffer | src/App.tsx:103-117 | The RGBA buffer has the canvas length. |
| Ingestion.ToByte | src/App.tsx:111 | `((v − min) / range) · 255`. ToByteEnds and ToByteMonotone state its range and order. |
| Ingestion.SliceStretch | src/App.tsx:106-111 | The stretch by one slice's own extremes. SliceStretchInRange and SliceStretchEnds state what it does. |
| Ingestion.SliceImage | src/App.tsx:103-117 | The display slice of a frame. SliceImageLength, SliceImageSample and SliceImagePastSamples state its contents. |
| Ingestion.ToByteEnds | src/App.tsx:111 | Between the extremes, the stretch lands in [0, 255], with the minimum at 0 and a distinct maximum at 255. |
| Ingestion.ToByteMonotone | src/App.tsx:111 | The stretch preserves sample order. |
| Ingestion.SliceStretchInRange | src/App.tsx:106-111 | Every sample of a slice is stretched into [0, 255], in sample order. |
| Ingestion.SliceStretchEnds | src/App.tsx:106-111 | A slice's least sample maps to 0, and its greatest to 255 unless all samples are equal. |
| Ingestion.ConstantSliceIsBlack | src/App.tsx:108-111 | A slice whose samples are all equal is 0 everywhere, with no division by zero. |
| Ingestion.SliceImageLength | src/App.tsx:103 | A display slice has four values per canvas pixel. |
| Ingestion.SliceImageSample | src/App.tsx:110-117 | Pixel i holds sample i stretched, in [0, 255], in bytes 4i, 4i+1 and 4i+2, and 255 in byte 4i+3. |
| Ingestion.SliceImagePastSamples | src/App.tsx:103-117 | Every value past the last sample's pixel stays 0. |
| Ingestion.AllSamplesMembership | src/App.tsx:131-136 | Every sample of every slice takes part in the global extremes. |
| Ingestion.AllSamples | src/App.tsx:131-136 | Every sample of every slice, in slice order. AllSamplesMembership states that none is missed. |
| Ingestion.Normalize | src/App.tsx:143 | `(v − min) / range`. NormalizeEnds states its range. |
| Ingestion.GlobalNorm | src/App.tsx:128-143 | The normalisation by the extremes of all samples of the series. GlobalNormEnds states what it does. |
| Ingestion.Layer | src/App.tsx:140-146 | A layer has width·height values. |
| Ingestion.Volume | src/App.tsx:124-146 | The volume has depth·width·height values. |
| Ingestion.VolumeAt | src/App.tsx:140-146 | Sample i of slice z lands at z·width·height + i, normalised; untouched positions are 0. |
| Ingestion.GlobalNormEnds | src/App.tsx:128-143 | The global normalisation maps every sample into [0, 1], the global minimum to 0, and the global maximum to 1 when the range is non-zero. |
| Ingestion.NormalizeEnds | src/App.tsx:143 | Between the extremes, `(v − min) / range` lies in [0, 1], with the minimum at 0 and a distinct maximum at 1. |
| Ingestion.VolumeInUnit | src/App.tsx:124-146 | Every volume value lies in [0, 1]. |
| Ingestion.EqualSamplesEqualValues | src/App.tsx:138-144 | Two equal raw samples get equal volume values, even on different slices. |
| Ingestion.UniformFramesFit | src/App.tsx:92-93 | When every pixel file has one canvas size, every layer fits the size taken from the last one, so such an upload meets HandleUploadComplete's precondition. |
| Ingestion.SourceFile | src/App.tsx:86-95 | Every frame of the sorted files comes from a picked file. |
| Ingestion.HandleUploadComplete | src/App.tsx:71-146 | An empty upload fails; otherwise the result has: metadata and region from the smallest-named file; one slice per pixel file in name order, each its own stretch; dimensions from the last pixel file and the depth; the volume of globally normalised layers. Each slice has its own buffer, distinct from the other slices' and from the volume's. |
| Ingestion.DrawSlices | src/App.tsx:86-122 | The file loop yields the frames of the sorted files, the last frame's size, and one fresh, valid slice image per frame holding that frame's stretch; no two slices share a buffer. |
| Ingestion.StretchSlice | src/App.tsx:97-119 | A fresh canvas image of the frame's size whose buffer is the frame's display slice. |
| Ingestion.WritePixels | src/App.tsx:110-117 | The pixel loop writes exactly the RGBA buffer of the samples. |
| Ingestion.GlobalExtrema | src/App.tsx:128-136 | The nested loop finds the least and greatest sample over all slices, or none when there is no sample. |
| Ingestion.ScanSlice | src/App.tsx:132-135 | The inner loop over one slice turns the extremes of the samples seen so far into the extremes of those samples followed by the slice. |
| Ingestion.MinMaxOfSnoc | src/App.tsx:133-134 | One loop step: the running extreme is replaced exactly when the new sample is beyond it. |
| Ingestion.AssembleVolume | src/App.tsx:124-146 | A fresh zeroed buffer of width·height·depth values, written so that it equals the globally normalised volume. |
| Ingestion.BuildVolume | src/App.tsx:124-146 | The extremes pass followed by the normalising pass: a fresh buffer equal to the volume normalised by the series-wide extremes. |
| Ingestion.WriteLayer | src/App.tsx:142-145 | The inner write loop puts each sample's target value at `base + i`. It keeps everything before `base` and leaves zeros after the layer's samples. |
| Ingestion.LayerTargets | src/App.tsx:140-146 | Layer `z` occupies positions `z·n` to `z·n + n` of the volume: its normalised samples come first, then zeros. |
| Ingestion.LayerPosition | src/App.tsx:140-146 | Every volume position `p` is value `p % n` of layer `p / n`, and that layer exists. |
| IngestionExamples.NameOrderNotUploadOrder | src/App.tsx:75-95 | Files picked as "b", "notes", "a" give layers a then b, and "notes" without pixel data is skipped. |
| IngestionExamples.SlicesStretchedAlone | src/App.tsx:106-111 | Slices [0..300] and [50..350] each map their own extremes to 0 and 255. |
| IngestionExamples.VolumeNormalisedTogether | src/App.tsx:128-146 | The same two slices give the volume 0, 2/7, 4/7, 6/7, 1/7, 3/7, 5/7, 1: the layers use the series extremes, not their own. |

## Left out

- React rendering, hooks, JSX, event wiring and the `isProcessing` and alert UI state are not modelled. All of `VolumeViewer.tsx` is left out too. None of this computes anything the model could state.
- Supabase authentication and series persistence are not modelled. This includes the `dicom_series` insert and its `num_slices`; they are a network client.
- DICOM tag decoding inside the dicom-parser library is not modelled. A parsed file is a `DataSet`, with decoded numbers in place of `parseFloat` on tag text. `sliceThickness` is carried along uninterpreted.
- The pixel element's byte offset is not modelled. An odd `dataOffset` that makes the `Uint16Array` view throw is not modelled either. The pixel words are given as a sequence.
- `pixelSpacing` keeps its fields as strings. The `Number` conversion of each field is not modelled.
- File reads and JSZip are not modelled; they are I/O. Archive contents are a given entry list, and a rejected archive is the `ArchiveUnreadable` outcome.
- The vtk.js pipeline is not modelled. This covers the `VolumeRenderer` class, the mapper and volume set-up, `resize` and `destroy`. It is GPU glue.
- `TUMOR/model.py` is not part of this model. It is a standalone script over SimpleITK, numpy and skimage.
- Floating point is not modelled. Channel values and intensities are exact reals. The `Uint8ClampedArray` round-and-clamp on byte writes and the `Float32Array` rounding of volume values are not modelled.
- Ingestion.SortByName: names are compared character by character by Unicode code point, not by `localeCompare` collation (code-point order also differs from UTF-16 code-unit order for characters above U+FFFF). The in-place mutation of the caller's array by `sort` is not modelled.
- Strings.ToLower: it lowers ASCII letters only, not the full Unicode case mapping of `toLowerCase`.
- Strings.LowerChar: maps only `A`–`Z` to `a`–`z`; every other character, including non-ASCII capitals, is left as it is.
- Ingestion.HandleUploadComplete: it requires every layer's samples to fit the canvas of the last pixel file in name order (width·height values). Mixed sizes are fine when they fit, e.g. a smaller scout sorted before larger slices. The code never checks this. When a layer does not fit, its extra values spill into the next layer's positions, or past the buffer end where the typed array silently drops them; the model does not describe that volume.
- Ingestion.DrawSlices: the branch where `getContext('2d')` returns null is not modelled. In that branch the code pushes the pixel array without a slice, so slices and layers would no longer pair up.
- Ingestion.StretchSlice: `Math.min(...)` and `Math.max(...)` throw a `RangeError` on very large arrays in some engines. That failure is not modelled.
- SliceViewer.DrawAdjusted: the canvas resize and `putImageData` are not modelled; only the computed buffer is. The `ctx` null check and the slider's `parseInt` handler are UI.
