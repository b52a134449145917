/** The records that flow between the services of the resume analyzer. */
module Schemas {
  import opened Wrappers

  /** A named entity the language model found in a text, with its kind (`PERSON`, `GPE`,
      `LOC`, `ORG`, ...). */
  datatype Entity = Entity(text: string, kind: string)

  /** The six fields extracted from one resume; each may be missing. */
  datatype ExtractedData = ExtractedData(
    name: Option<string>,
    address: Option<string>,
    email: Option<string>,
    contactNumber: Option<string>,
    lastQualification: Option<string>,
    lastInstitution: Option<string>)

  /** `ExtractedData()`: every field missing. */
  const NoData := ExtractedData(None, None, None, None, None, None)

  /** One row of the report before it is rendered: a serial number and the six fields. */
  datatype ResumeRecord = ResumeRecord(
    sNo: int,
    name: Option<string>,
    address: Option<string>,
    email: Option<string>,
    contactNumber: Option<string>,
    lastQualification: Option<string>,
    lastInstitution: Option<string>)

  /** An octet of an uploaded or archived file. */
  newtype byte = x: int | 0 <= x < 256

  type Bytes = seq<byte>

  /** FastAPI's `HTTPException`: the status code and the detail message sent to the client. */
  datatype HttpError = HttpError(status: int, detail: string)
}
