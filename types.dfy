/** The shared vocabulary of the viewer: optional values, the closed set of
    body regions, raw 16-bit samples and the metadata record read from the
    first file of a series (src/types/index.ts). */
module Types {

  datatype Option<T> = None | Some(value: T)

  datatype Result<T> = Success(value: T) | Failure(message: string)

  /** The body region that selects a rendering preset. */
  datatype BodyRegion = Chest | Abdomen | UpperAbdomen | FullBody | HumanNeck | Unknown

  /** One element of a `Uint16Array`: a raw pixel sample. */
  type Sample = x: int | 0 <= x < 0x1_0000

  /** `DicomMetadata`: every field is optional. Numeric tags carry the value
      the DICOM library decoded for them; the pixel spacing carries the
      backslash-separated fields before their conversion to numbers. */
  datatype DicomMetadata = DicomMetadata(
    patientName: Option<string>,
    studyDate: Option<string>,
    modality: Option<string>,
    bodyPartExamined: Option<string>,
    seriesDescription: Option<string>,
    rows: Option<nat>,
    columns: Option<nat>,
    sliceThickness: Option<real>,
    pixelSpacing: Option<seq<string>>)

  /** The `{}` a failed parse returns. */
  const EmptyMetadata := DicomMetadata(None, None, None, None, None, None, None, None, None)
}
