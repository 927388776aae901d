/** The records the ingestion and search pipelines exchange, and the
    exceptions they raise, as immutable values. A C# `null` becomes `None`. */
module Domain {
  import opened Wrappers

  /** A point in time, as ticks since `DateTime.MinValue`. */
  datatype DateTime = DateTime(ticks: nat)

  const MinValue: DateTime := DateTime(0)

  /** A URI, represented by its string form (what `Uri.ToString()` gives). */
  datatype Uri = Uri(text: string)

  /** A paper as read from the arXiv catalogue. `Title` is declared
      non-nullable but receives a null when the entry has no title. */
  datatype ArxivPaper = ArxivPaper(
    id: string,
    title: Option<string>,
    summary: string,
    comments: Option<string>,
    pdfUri: Option<Uri>,
    published: DateTime,
    authors: seq<string>,
    categories: seq<string>)

  /** What an enumeration of papers produced: the papers yielded in order,
      then the exception that ended it, if one did. */
  datatype PaperStream = PaperStream(items: seq<ArxivPaper>, failure: Option<Error>)

  /** The `{authors, categories}` value stored in the `Metadata` column. */
  datatype DocumentMetadata = DocumentMetadata(authors: seq<string>, categories: seq<string>)

  /** `new DocumentMetadata()`: both lists empty. */
  const EmptyMetadata: DocumentMetadata := DocumentMetadata([], [])

  /** The body of an indexing call; `ids` may be null after deserialisation. */
  datatype IndexingRequest = IndexingRequest(ids: Option<seq<string>>)

  /** A search call: the query text (null when absent from the body) and
      the number of rows wanted. */
  datatype SearchRequest = SearchRequest(query: Option<string>, top: int)

  /** The `top_k` value a request gets when the body does not set it. */
  const DefaultTop: int := 5

  /** A request whose body carries only the query. */
  function SearchRequestFor(query: string): SearchRequest {
    SearchRequest(Some(query), DefaultTop)
  }

  /** One row of a search answer; `distance` is the store's cosine
      distance, carried through as an opaque number. */
  datatype SearchResultItem = SearchResultItem(
    arxivId: string,
    distance: real,
    title: string,
    summary: Option<string>,
    comments: Option<string>,
    metadata: Option<string>,
    pdfUri: Option<Uri>,
    published: Option<DateTime>)

  /** Provider and model configuration shared by both pipelines. */
  datatype AISettings = AISettings(
    provider: string,
    externalEmbeddingModel: string,
    embeddingModelDimensions: int)

  /** The exceptions the modelled code raises or lets through. */
  datatype Error =
    | NullReference
    | ArgumentNull(paramName: string)
    | InvalidOperation(message: string)
    | UriFormat(text: string)
    | HttpRequest(message: string)
    | Json(message: string)
    | Sql(message: string)
    | ArxivPdfDownload(message: string, inner: Option<Error>)
    | ArxivApi(message: string, inner: Option<Error>)
}
