/**
 The values the part-matching client holds in its state: documents listed by
 the backend, batch-match responses, single-search responses, the snackbar
 notification, and the replies of the backend calls.
 */
module Types {

  datatype Option<+T> = None | Some(value: T)

  /** The settled outcome of one backend call: a 2xx reply with its payload,
      or any transport or non-2xx failure (all failures are treated alike). */
  datatype Reply<+T> = Ok(data: T) | Failed

  /** Backend-assigned document identifier (`doc._id`). */
  type DocId = string

  /** One row of the documents table; `uploadDate` is the backend's timestamp text. */
  datatype Document = Document(id: DocId, filename: string, uploadDate: string, status: string)

  /** The file picked in the upload control. */
  datatype PdfFile = PdfFile(name: string, content: seq<bv8>)

  datatype LineItem = LineItem(lineNumber: int, description: string)

  datatype MatchCandidate = MatchCandidate(partNumber: string, description: string)

  datatype MatchResult = MatchResult(
    lineItem: LineItem,
    matched: bool,
    score: real,
    bestMatch: Option<MatchCandidate>)

  /** The batch-match reply. `matchedItems`, `totalItems` and `matchRate` are
      shown as the backend sends them; the client never recomputes them. */
  datatype BatchMatchResponse = BatchMatchResponse(
    documentId: DocId,
    totalItems: int,
    matchedItems: int,
    matchRate: real,
    matches: seq<MatchResult>)

  /** The single-match reply. `matched` is the backend's "Yes"/"No" text; every
      field but `matched` may be absent. */
  datatype SearchResponse = SearchResponse(
    invoiceDescription: Option<string>,
    matched: string,
    similarityScore: Option<real>,
    partDescription: Option<string>,
    documentType: Option<string>,
    documentId: Option<string>,
    partId: Option<string>,
    unitOfMeasure: Option<string>)

  datatype Severity = Info | Success | Warning | Error

  /** The one snackbar notification of the page. */
  datatype Snackbar = Snackbar(open: bool, message: string, severity: Severity)

  /** A backend request the client issued. */
  datatype Request =
    | GetDocuments
    | PostUpload(file: PdfFile)
    | PostBatchMatch(docId: DocId)
    | PostSingleMatch(description: string)
}
