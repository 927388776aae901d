# sql-semanticsearch in Dafny

This is a functional model of the deterministic core of `sql-semanticsearch`. That system ingests arXiv papers into SQL Server and runs semantic searches over their stored embeddings. The model covers eight parts:

- **Atom entry mapping** (`AtomEntry`, `ArxivExtensions`): turning an already-parsed Atom `<entry>` into an `ArxivPaper`. This includes the short identifier (`ToShortId`), the display title and the camelCase JSON metadata text.
- **arXiv client** (`ArxivApiClient`):
  - id normalisation and the `query?id_list=…` request path;
  - the single-pass paging loop of `GetPaperInfo`;
  - the order-preserving entry stream;
  - the error logic of `GetPaperWithPdf` and `DownloadPdfToMemoryStream`.
- **Ingestion** (`DocumentStore`, `IngestionService`):
  - the three tables `Documents`, `DocumentSummaryEmbeddings` and `DocumentMetadataEmbeddings`, as abstract maps;
  - the four SQL statements of a save;
  - `Save` as one transaction with its open/commit/close calls;
  - `ProcessIndexingRequest` as a fold over the paper stream, in which a failed save is logged and skipped.
- **Search** (`SearchService`): the query guard, one store query and pass-through of its rows or its exception.
- **Column marshallers** (`DbValues`, `MetadataTypeHandler`, `UriTypeHandler`): `SetValue` and `Parse` with their null and blank defaults.
- **Configuration** (`Configuration`): `GetAISettings`, and the dimension-count fallback rule.
- **HTTP trigger** (`IndexDocumentsFunction`): the bad request, OK and 500 outcomes of `Run`.
- **Database deployment** (`DatabaseDeployment`):
  - the substitution variables (dimension fallback, Ollama endpoint, upper-cased provider);
  - the three script-selection phases, their sequencing and the exit code.

Three supporting modules:

- `Text` models the .NET string operations the code relies on: `Split`, `Join`, `Trim`, `TrimEnd`, ordinal search, and case-insensitive `Replace` and `Contains`.
- `Numbers` models `int.ToString` and `int.TryParse`.
- `Json` is a concrete model of `System.Text.Json` for the metadata object: a writer with the default encoder's escapes, and a reader for the same subset, with the round trip proved.

External systems are parameters, so the model states what the code does for every possible behaviour of the library or service:

- the HTTP fetch of a query and the PDF download;
- `DateTime.TryParse` and URI creation;
- the paper stream the ingestion consumes;
- the failure, if any, of each database call;
- the search store;
- the outcome of each DbUp upgrade.

A few behaviours of the code worth knowing:

- Each requested id is cut at its first `v` before it is sent, so an old-style id such as `solv-int/9901001` is requested as `sol` (see Findings).
- An empty id list still sends one catalogue request, with an empty `id_list`.
- The summary embedding row is inserted whenever `Summary IS NOT NULL`, so an empty summary gets one too.
- The paging `do … while (start < maxItems)` loop runs its body exactly once. Only the first `maxItems` ids are ever requested, and there is no delay between pages.
- The search statement's vector dimension comes from `AISettings.EmbeddingModelDimensions`, which `GetAISettings` never sets (see Findings).

## Model

| member | source | states |
|---|---|---|
| ArxivExtensions.ToShortId | src/Sql.SemanticSearch.Core/ArXiv/Extensions/ArxivExtensions.cs:16-24 | The short id is a suffix of the input and never contains `arxiv.org/abs/`. |
| ArxivExtensions.ToShortIdAfterLastMarker | src/Sql.SemanticSearch.Core/ArXiv/Extensions/ArxivExtensions.cs:20-23 | For any prefix, the short id of `p + "arxiv.org/abs/" + r` is `r` when `r` holds no marker: the text after the last marker. |
| ArxivExtensions.ToShortIdWithoutMarker | tests/Sql.SemanticSearch.Core.UnitTests/ArXiv/Extensions/ArxivExtensionsTests.cs:32-33 | Text without the marker, `""` included, is returned unchanged. |
| ArxivExtensions.ToShortIdAfterFirst | src/Sql.SemanticSearch.Core/ArXiv/Extensions/ArxivExtensions.cs:20-23 | The text up to and including the first marker does not affect the result. |
| ArxivExtensions.ToShortIdIdempotent | src/Sql.SemanticSearch.Core/ArXiv/Extensions/ArxivExtensions.cs:20-23 | Applying `ToShortId` twice gives the same as once. |
| ArxivExtensions.ToShortIdOfAbstractUrl | tests/Sql.SemanticSearch.Core.UnitTests/ArXiv/Extensions/ArxivExtensionsTests.cs:29-31 | `https://arxiv.org/abs/` followed by a marker-free id gives that id. |
| ArxivExtensions.ExampleIdsLackMarker | tests/Sql.SemanticSearch.Core.UnitTests/ArXiv/Extensions/ArxivExtensionsTests.cs:29-31 | The three example ids hold no marker, so the URL lemma covers the cases the unit tests use. |
| ArxivExtensions.ToShortIdPlainExamples | tests/Sql.SemanticSearch.Core.UnitTests/ArXiv/Extensions/ArxivExtensionsTests.cs:32-33 | `some-other-url` and `""` come back unchanged. |
| ArxivExtensions.ToShortIdIsCaseSensitive | src/Sql.SemanticSearch.Core/ArXiv/Extensions/ArxivExtensions.cs:19-20 | Marker matching is ordinal: an upper-case `ARXIV.ORG/ABS/` URL is kept whole. |
| ArxivExtensions.DisplayTitleSplits | src/Sql.SemanticSearch.Core/ArXiv/Extensions/ArxivExtensions.cs:29 | Splitting a display title at its first `": "` recovers the id and the title (null read as empty) when the id has no colon. |
| ArxivExtensions.DisplayTitle | src/Sql.SemanticSearch.Core/ArXiv/Extensions/ArxivExtensions.cs:29 | The identifier, then `: `, then the title (nothing for a missing title), with no other text. |
| ArxivExtensions.MetadataString | src/Sql.SemanticSearch.Core/ArXiv/Extensions/ArxivExtensions.cs:31-37 | The metadata text is a JSON object text, starting with `{`. |
| ArxivExtensions.MetadataStringRoundTrip | src/Sql.SemanticSearch.Core/ArXiv/Extensions/ArxivExtensions.cs:9-37 | The metadata text decodes back to `authors` then `categories`, each list in the paper's order. |
| Json.MetadataRoundTrip | src/Sql.SemanticSearch.Core/ArXiv/Extensions/ArxivExtensions.cs:31-37 | Decoding inverts the camelCase serialisation of any metadata value, escaped characters included. |
| AtomEntry.FirstPdfLink | src/Sql.SemanticSearch.Core/ArXiv/Extensions/ArxivElementExtensions.cs:21-22 | The chosen link is titled exactly `pdf`, and no earlier link is; none is chosen only when no link is titled `pdf`. |
| AtomEntry.ToArxivPaper | src/Sql.SemanticSearch.Core/ArXiv/Extensions/ArxivElementExtensions.cs:16-46 | The mapping succeeds exactly when the id is present and the PDF href, if any, is a valid URI. A missing id dereferences null, and a rejected href raises a URI format error. The id is `ToShortId` of the entry id. The title, summary and comments are the trimmed element texts, present exactly when the element is, except that a missing summary gives `""`. The PDF URI is the one created from the first `pdf` link's href, and is present exactly when that href is. The date is the parsed one, or `MinValue` when missing or unparsable. The authors and categories are the present, non-empty names and terms, in document order. |
| AtomEntry.ToArxivPaperLists | src/Sql.SemanticSearch.Core/ArXiv/Extensions/ArxivElementExtensions.cs:33-44 | A value is among the authors (categories) exactly when it is a present, non-empty author name (category term). |
| AtomEntry.KeepNonEmptyAppend | src/Sql.SemanticSearch.Core/ArXiv/Extensions/ArxivElementExtensions.cs:33-38 | Filtering distributes over concatenation, so document order is kept. |
| AtomEntry.KeepNonEmptySingle | src/Sql.SemanticSearch.Core/ArXiv/Extensions/ArxivElementExtensions.cs:33-38 | One value is kept exactly when it is present and non-empty. Together with the append lemma this fixes the filtered list, order included. |
| AtomEntry.KeepNonEmptyLength | src/Sql.SemanticSearch.Core/ArXiv/Extensions/ArxivElementExtensions.cs:33-38 | At most one value per element, and exactly one each when all are present and non-empty. |
| AtomEntry.PdfHrefIgnoresLaterLinks | src/Sql.SemanticSearch.Core/ArXiv/Extensions/ArxivElementExtensions.cs:21-24 | Links after the first `pdf` link never change the PDF address. |
| AtomEntry.FirstPdfLinkIs | src/Sql.SemanticSearch.Core/ArXiv/Extensions/ArxivElementExtensions.cs:21-22 | A `pdf` link with none before it is the one chosen. |
| AtomEntry.PublishedDateCases | src/Sql.SemanticSearch.Core/ArXiv/Extensions/ArxivElementExtensions.cs:25 | A parsable date is kept; a missing or unparsable one becomes `DateTime.MinValue`. |
| ArxivApiClient.NormaliseIdAsWritten | src/Sql.SemanticSearch.Core/ArXiv/ArxivApiClient.cs:107-110 | As written: the result is a prefix of the id with every `arXiv:` removed (ignoring case), and contains no `v`. |
| ArxivApiClient.CutAtFirstV | src/Sql.SemanticSearch.Core/ArXiv/ArxivApiClient.cs:109 | `Split('v')[0]` keeps exactly the text before the first `v`. |
| ArxivApiClient.AsWrittenTruncatesOldStyleId | src/Sql.SemanticSearch.Core/ArXiv/ArxivApiClient.cs:109 | An old-style id whose archive name holds a `v` is cut inside the archive name, while `StripVersion` keeps it whole. |
| ArxivApiClient.SolvIntExample | src/Sql.SemanticSearch.Core/ArXiv/ArxivApiClient.cs:107-110 | `solv-int/9901001` is cut to `sol` as written, and unchanged after correction. |
| ArxivApiClient.StripVersion | src/Sql.SemanticSearch.Core/ArXiv/ArxivApiClient.cs:106-110 | The result is a prefix of the id; either nothing is removed, or exactly a `v` followed by one or more digits. |
| ArxivApiClient.StripVersionOfVersioned | src/Sql.SemanticSearch.Core/ArXiv/ArxivApiClient.cs:106 | A trailing `v<digits>` version is removed whole, whatever the base holds. |
| ArxivApiClient.StripVersionKeepsOldStyleId | src/Sql.SemanticSearch.Core/ArXiv/ArxivApiClient.cs:106 | An unversioned `archive/number` id is kept, `v` in the archive or not. |
| ArxivApiClient.NormalisationsAgree | src/Sql.SemanticSearch.Core/ArXiv/ArxivApiClient.cs:107-110 | On `base v digits` with no `v` in the base, the written cut and the correction give the same base. |
| ArxivApiClient.NormaliseAll | src/Sql.SemanticSearch.Core/ArXiv/ArxivApiClient.cs:107-110 | The ids the client sends: one per requested id, in input order. Each is cut as written, so it holds no `v` and is a prefix of the id with `arXiv:` removed. |
| ArxivApiClient.QueryUrlRoundTrip | src/Sql.SemanticSearch.Core/ArXiv/ArxivApiClient.cs:107-114 | The request path the client sends reads back as the ids cut as written, in input order, the start and the page size. This holds whenever those cut ids are non-empty and free of `,` and `&`. |
| ArxivApiClient.IdListRoundTrip | src/Sql.SemanticSearch.Core/ArXiv/ArxivApiClient.cs:107-114 | The `id_list` field the client sends splits at `,` back into the ids cut as written, in input order, none of them holding a `v`. An empty id list gives an empty field and reads back as no ids. |
| ArxivApiClient.NormaliseAllCorrected | src/Sql.SemanticSearch.Core/ArXiv/ArxivApiClient.cs:106 | The ids the corrected request would send: each requested id with `arXiv:` and a trailing version removed, in input order. |
| ArxivApiClient.NormaliseAllAgree | src/Sql.SemanticSearch.Core/ArXiv/ArxivApiClient.cs:106-110 | For ids of the form `base v digits` with no `v` in the base, both normalisations send the bases, so the client's request and the corrected one are the same. |
| ArxivApiClient.QueryPath | src/Sql.SemanticSearch.Core/ArXiv/ArxivApiClient.cs:114 | Every request path starts with `query?id_list=`. |
| ArxivApiClient.IdList | src/Sql.SemanticSearch.Core/ArXiv/ArxivApiClient.cs:107-110 | The `id_list` field is empty exactly when no id is requested, or one id whose cut is empty. |
| ArxivApiClient.QueryUrl | src/Sql.SemanticSearch.Core/ArXiv/ArxivApiClient.cs:107-114 | The request path the client sends starts with `query?id_list=`. |
| ArxivApiClient.QueryUrlCorrected | src/Sql.SemanticSearch.Core/ArXiv/ArxivApiClient.cs:106-114 | The corrected request path starts with `query?id_list=`. |
| ArxivApiClient.QueryPathRoundTrip | src/Sql.SemanticSearch.Core/ArXiv/ArxivApiClient.cs:114 | A request path built from non-empty ids free of `,` and `&` reads back as those ids, in order, the start and the page size. |
| ArxivApiClient.QueryUrlCorrectedRoundTrip | src/Sql.SemanticSearch.Core/ArXiv/ArxivApiClient.cs:106-114 | The corrected request path reads back as the ids with versions removed, in order, the start and the page size. |
| ArxivApiClient.SingleIdRequest | src/Sql.SemanticSearch.Core/ArXiv/ArxivApiClient.cs:84-114 | A request for one id reads back as that id, cut as written. |
| ArxivApiClient.SolvIntRequest | src/Sql.SemanticSearch.Core/ArXiv/ArxivApiClient.cs:107-114 | Asked for `solv-int/9901001`, the client's request reads back as the single id `sol`. The corrected request reads back as `solv-int/9901001`. |
| ArxivApiClient.PaperInfo | src/Sql.SemanticSearch.Core/ArXiv/ArxivApiClient.cs:38-55 | The stream is that of the one request for the first `maxItems` ids from position 0. A failed request gives no paper and its error. Otherwise it is the answer's entries mapped in order, up to the first one that fails to map. |
| ArxivApiClient.MapEntries | src/Sql.SemanticSearch.Core/ArXiv/ArxivApiClient.cs:138-170 | The papers are the entries mapped by `ToArxivPaper`, in document order. The stream ends early exactly at the first entry that cannot be mapped, with that entry's error. |
| ArxivApiClient.AnswerStream | src/Sql.SemanticSearch.Core/ArXiv/ArxivApiClient.cs:119-175 | A failed request ends the stream before any paper, with its error. A successful one yields the entries' papers in document order, stopping only at the first entry that fails to map, with that entry's error. |
| ArxivApiClient.GetPaperInfo | src/Sql.SemanticSearch.Core/ArXiv/ArxivApiClient.cs:38-55 | The do-while loop sends exactly one request, for the first `maxItems` ids from position 0, cut as written, even for an empty id list. The papers are that request's stream. |
| ArxivApiClient.FirstOrDefault | src/Sql.SemanticSearch.Core/ArXiv/ArxivApiClient.cs:84 | The first paper if there is one; else the stream's error; else no paper. |
| ArxivApiClient.FirstEntryDecides | src/Sql.SemanticSearch.Core/ArXiv/ArxivApiClient.cs:138-169 | Only the first entry's mapping decides the first paper. |
| ArxivApiClient.DownloadPdf | src/Sql.SemanticSearch.Core/ArXiv/ArxivApiClient.cs:57-80 | The bytes are the download's bytes. An HTTP failure becomes an `ArxivPdfDownloadException` wrapping it, whose message is the original message after `Error downloading PDF: `. Other failures pass through. |
| ArxivApiClient.GetPaperWithPdf | src/Sql.SemanticSearch.Core/ArXiv/ArxivApiClient.cs:82-93 | Success means the first paper has a PDF URI and the bytes were downloaded from it. A first paper without a PDF is refused with the fixed message. No paper dereferences null. A stream error propagates. When the first paper has a PDF URI, the result is that paper with the bytes downloaded from it, or the download's error, with an HTTP failure wrapped as a PDF download error. |
| ArxivApiClient.PaperWithPdfRequest | src/Sql.SemanticSearch.Core/ArXiv/ArxivApiClient.cs:84 | The request carries exactly the one id, cut as written, with start 0 and page size 10. |
| DocumentStore.ReplaceStores | src/Sql.SemanticSearch.Core/ArXiv/IngestionService.cs:83-142 | After a replace, the row is the only document with its arXiv id, under the next identity. Each embedding row exists exactly when its column is not null, holding that text and the model. |
| DocumentStore.ReplaceWellformed | src/Sql.SemanticSearch.Core/ArXiv/IngestionService.cs:83-116 | A replace keeps arXiv ids unique and every embedding row attached to a document. |
| DocumentStore.ReplaceFrame | src/Sql.SemanticSearch.Core/ArXiv/IngestionService.cs:83-96 | The documents and embedding rows of every other arXiv id are unchanged. |
| DocumentStore.StoredAtTransfer | src/Sql.SemanticSearch.Core/ArXiv/IngestionService.cs:69-73 | A stored row stays stored across changes that keep the rows of its arXiv id. |
| DocumentStore.ReplaceDocument | src/Sql.SemanticSearch.Core/ArXiv/IngestionService.cs:83-142 | The row goes in under the next identity, which advances by one. Every other document left was already there, unchanged, and carries another arXiv id. |
| IngestionService.DocumentRow | src/Sql.SemanticSearch.Core/ArXiv/IngestionService.cs:106-115 | The `INSERT` binds the paper's id, title, comments and published date unchanged, its summary as a non-null value, its metadata as JSON text that decodes back to its authors and categories, and its PDF URI's string form, null exactly when the paper has none. |
| IngestionService.Save | src/Sql.SemanticSearch.Core/ArXiv/IngestionService.cs:62-81 | A failed open leaves everything as it was. Otherwise the connection is closed last on every path. The save succeeds exactly when no call fails, and a close failure is the one raised. Only a transaction that reaches its commit changes the tables, and then by exactly the replace. A rolled-back save restores the rows, but uses up an identity value once its insert was sent. |
| IngestionService.FirstFault | src/Sql.SemanticSearch.Core/ArXiv/IngestionService.cs:65-76 | The first failing call of the transaction, with all calls before it succeeding; none exactly when no call fails. |
| IngestionService.SaveWellformed | src/Sql.SemanticSearch.Core/ArXiv/IngestionService.cs:62-81 | Every save, failed or not, keeps arXiv ids unique. |
| IngestionService.SaveFrame | src/Sql.SemanticSearch.Core/ArXiv/IngestionService.cs:62-81 | A save never touches the rows of another arXiv id. |
| IngestionService.SaveStores | src/Sql.SemanticSearch.Core/ArXiv/IngestionService.cs:62-81 | When no call fails, the save succeeds and the row is the only one with its arXiv id. |
| IngestionService.RolledBackSaveSkipsIdentity | src/Sql.SemanticSearch.Core/ArXiv/IngestionService.cs:62-81 | After a save that fails once its insert was sent, the failed id's rows are as before. The next save that goes through stores its row one identity value further on. |
| IngestionService.PaperEmbeddings | src/Sql.SemanticSearch.Core/ArXiv/IngestionService.cs:112-142 | A stored paper always has both embeddings: of its summary, and of its metadata text. |
| IngestionService.SaveAllLogged | src/Sql.SemanticSearch.Core/ArXiv/IngestionService.cs:40-53 | The log is what was logged before, followed by the arXiv id of every row whose save failed, in row order, and nothing else. |
| IngestionService.SaveRowLogged | src/Sql.SemanticSearch.Core/ArXiv/IngestionService.cs:40-53 | A save logs its row's arXiv id exactly when it fails, and otherwise logs nothing. |
| IngestionService.FailedIdsMembers | src/Sql.SemanticSearch.Core/ArXiv/IngestionService.cs:40-53 | An arXiv id is among the failed ones exactly when the save of some row carrying it fails. |
| IngestionService.FailedIdsBounds | src/Sql.SemanticSearch.Core/ArXiv/IngestionService.cs:40-53 | There is at most one failed id per row, each the id of one of the rows, and none when no save fails. |
| IngestionService.SaveAll | src/Sql.SemanticSearch.Core/ArXiv/IngestionService.cs:40-53 | The saves use up at most one identity value each, and never give one back. |
| IngestionService.SaveAllWithoutFaults | src/Sql.SemanticSearch.Core/ArXiv/IngestionService.cs:40-53 | When no database call fails, nothing is logged. |
| IngestionService.SaveAllWellformed | src/Sql.SemanticSearch.Core/ArXiv/IngestionService.cs:40-53 | ArXiv ids stay unique through the whole stream. |
| IngestionService.SaveAllFrame | src/Sql.SemanticSearch.Core/ArXiv/IngestionService.cs:40-96 | The rows of an arXiv id that no streamed paper carries are never touched. |
| IngestionService.SavedRowStored | src/Sql.SemanticSearch.Core/ArXiv/IngestionService.cs:40-73 | A row whose save goes through, and which no later row with the same arXiv id follows, ends up stored as the only document with that id. |
| IngestionService.StreamedPaperStored | src/Sql.SemanticSearch.Core/ArXiv/IngestionService.cs:40-116 | The same for a streamed paper, as the row its insert binds. |
| IngestionService.SaveAllStep | src/Sql.SemanticSearch.Core/ArXiv/IngestionService.cs:40-53 | Processing one more paper extends the run by exactly one save. |
| IngestionService.ProcessIndexingRequest | src/Sql.SemanticSearch.Core/ArXiv/IngestionService.cs:36-60 | A null request raises `ArgumentNullException("indexingRequest")` and touches nothing. Otherwise the ids go to the client exactly once. Every yielded paper is saved in order, and failures are logged and skipped. A stream error propagates unwrapped after the earlier papers were saved. |
| SearchService.Search | src/Sql.SemanticSearch.Core/Search/SearchService.cs:40-89 | A null request or null/empty query makes no store call and answers `[]`. Any other request makes exactly one call, with its query, `Top` and the configured model and dimension. It ends with the store's rows, unchanged, or its exception. |
| SearchService.SearchKeepsRanking | src/Sql.SemanticSearch.Core/Search/SearchService.cs:60-82 | If the store honours `TOP(@k) … ORDER BY Distance`, so does the result: the service neither reorders nor pads. |
| SearchService.WhiteSpaceQueryReachesStore | src/Sql.SemanticSearch.Core/Search/SearchService.cs:42 | A white-space-only query is not short-circuited; it is sent to the store. |
| SearchService.DefaultTopQuery | src/Sql.SemanticSearch.Core/Messages/SearchRequest.cs:11 | A body without `top_k` asks the store for 5 rows. |
| SearchService.SearchRethrows | src/Sql.SemanticSearch.Core/Search/SearchService.cs:84-88 | A store exception is rethrown as it is, never turned into an empty answer. |
| SearchService.SearchDeclaresZeroDimensions | src/Sql.SemanticSearch.Core/Search/SearchService.cs:56 | With settings from `GetAISettings`, the statement declares `VECTOR(0)`, whatever dimension count is configured. |
| SearchService.SearchDeclaresConfiguredDimensions | src/Sql.SemanticSearch.Core/Search/SearchService.cs:56 | With the corrected settings, the declared dimension is the configured positive count, or the default. |
| Configuration.GetAISettings | src/Sql.SemanticSearch.Core/Configuration/ConfigurationManagerExtensions.cs:12-26 | Success exactly when provider and model are both present and not blank. The values are untrimmed, and the dimensions are 0. Otherwise `InvalidOperationException` with the fixed message naming both keys. |
| Configuration.GetAISettingsReadsTwoKeys | src/Sql.SemanticSearch.Core/Configuration/ConfigurationManagerExtensions.cs:14-15 | Only the provider and external-model keys are read. A key that differs from both ignoring case never changes the settings or the error. |
| Configuration.DimensionsOf | src/Sql.SemanticSearch.DatabaseDeployment/Program.cs:26-29 | The configured count when it parses as a positive 32-bit integer, else the default; positive whenever the default is. |
| Configuration.DimensionsOfWritten | src/Sql.SemanticSearch.DatabaseDeployment/Program.cs:26-29 | A positive count written in decimal is read back as itself. |
| Configuration.GetAISettingsWithDimensions | src/Sql.SemanticSearch.Core/Configuration/ConfigurationManagerExtensions.cs:12-26 | The corrected settings: the same validation and strings, with the dimension count read by the fallback rule. |
| MetadataTypeHandler.SetValue | src/Sql.SemanticSearch.Core/Data/TypeHandlers/MetadataTypeHandler.cs:11-17 | A string parameter. DBNull exactly for null. Otherwise non-blank JSON text that decodes back to the value. |
| MetadataTypeHandler.Parse | src/Sql.SemanticSearch.Core/Data/TypeHandlers/MetadataTypeHandler.cs:19-26 | A non-string, or a blank string, gives the empty metadata. The JSON `null` gives the empty metadata. Malformed JSON raises. The result is never null. |
| MetadataTypeHandler.ParseSetValue | src/Sql.SemanticSearch.Core/Data/TypeHandlers/MetadataTypeHandler.cs:11-26 | `Parse` inverts `SetValue` for every metadata value, both lists in order. |
| MetadataTypeHandler.ParseSetNull | tests/Sql.SemanticSearch.Core.UnitTests/Data/TypeHandles/MetadataTypeHandlerTests.cs:97-125 | A null written as DBNull reads back as the empty metadata. |
| MetadataTypeHandler.ParseStoredMetadata | src/Sql.SemanticSearch.Core/ArXiv/IngestionService.cs:112 | The metadata text the ingestion stores reads back as the paper's authors and categories. |
| UriTypeHandler.SetValue | src/Sql.SemanticSearch.Core/Data/TypeHandles/UriTypeHandler.cs:8-12 | A string parameter: DBNull exactly for null, otherwise the URI's string form. |
| UriTypeHandler.Parse | src/Sql.SemanticSearch.Core/Data/TypeHandles/UriTypeHandler.cs:14-21 | Null for null, DBNull, empty or white-space text, and for text URI creation rejects; otherwise the created URI. It never throws. |
| UriTypeHandler.ParseSetValue | src/Sql.SemanticSearch.Core/Data/TypeHandles/UriTypeHandler.cs:8-21 | A stored URI whose string form is non-blank and re-creatable reads back as itself; null reads back as null. |
| UriTypeHandler.ParsedUriText | tests/Sql.SemanticSearch.Core.UnitTests/Data/TypeHandles/UriTypeHandlerTests.cs:39-53 | When created URIs print as their source text, a parsed URI's string form equals the stored text. |
| IndexDocumentsFunction.Run | src/Sql.SemanticSearch.Ingestion.Functions/IndexDocumentsFunction.cs:38-64 | A missing request, missing ids or empty ids give `BadRequest("No ids provided.")` and no ingestion. Otherwise the ingestion runs exactly once. Its exception gives status 500; success gives OK with the ids count. |
| IndexDocumentsFunction.OkMessageCount | src/Sql.SemanticSearch.Ingestion.Functions/IndexDocumentsFunction.cs:57 | The number in the OK message reads back as the number of ids submitted. |
| IndexDocumentsFunction.OkMessageIgnoresOutcome | src/Sql.SemanticSearch.Ingestion.Functions/IndexDocumentsFunction.cs:55-57 | The OK message depends only on the number of ids, not on what the ingestion stored. |
| DatabaseDeployment.Endpoint | src/Sql.SemanticSearch.DatabaseDeployment/Program.cs:31-36 | Non-empty exactly when the provider equals `OLLAMA` ignoring case. Then it is the tunnel address without trailing slashes, followed by `/api/embed`. |
| DatabaseDeployment.EndpointIgnoresTrailingSlash | src/Sql.SemanticSearch.DatabaseDeployment/Program.cs:35 | A trailing `/` on the tunnel address does not change the endpoint. |
| DatabaseDeployment.VariablesOf | src/Sql.SemanticSearch.DatabaseDeployment/Program.cs:22-50 | A null provider raises a null reference. Otherwise `AI_PROVIDER` is the upper-cased provider, `AI_CLIENT_ENDPOINT` is the endpoint built from the provider and the tunnel address, and both embedding-model variables are the configured values or null. |
| DatabaseDeployment.EndpointIffOllamaVariable | src/Sql.SemanticSearch.DatabaseDeployment/Program.cs:31-44 | The endpoint variable is set exactly when `AI_PROVIDER` is `OLLAMA`. |
| DatabaseDeployment.VariablesDimensions | src/Sql.SemanticSearch.DatabaseDeployment/Program.cs:26-48 | `EMBEDDING_DIMENSIONS` reads back as the configured positive count or the default. |
| DatabaseDeployment.Selected | src/Sql.SemanticSearch.DatabaseDeployment/Program.cs:57-85 | A phase runs exactly the embedded scripts its name filter accepts. |
| DatabaseDeployment.UpgradeFor | src/Sql.SemanticSearch.DatabaseDeployment/Program.cs:54-91 | Only the always-run phase uses the null journal. The last two phases run in a transaction. |
| DatabaseDeployment.PhasesPartition | src/Sql.SemanticSearch.DatabaseDeployment/Program.cs:69-85 | Each script is selected by exactly one of the migration and always-run phases, and together they hold every script. |
| DatabaseDeployment.RunFrom | src/Sql.SemanticSearch.DatabaseDeployment/Program.cs:64-78 | Phases run in order, each only after the previous one succeeded. A phase is the last attempted only if it failed or was the third. |
| DatabaseDeployment.Deploy | src/Sql.SemanticSearch.DatabaseDeployment/Program.cs:22-102 | A null provider fails before any upgrade. Otherwise the upgrades run are the phases in order, each with its selected scripts and the variables, each only after the previous one succeeded. The exit code is 0 when all three succeed and -1 when the last one attempted fails. |
| Numbers.TryParseInt32RoundTrip | src/Sql.SemanticSearch.DatabaseDeployment/Program.cs:26-48 | `int.TryParse` reads back every 32-bit integer `ToString` writes. |
| Numbers.TryParseInt32 | src/Sql.SemanticSearch.DatabaseDeployment/Program.cs:26 | A value read by `int.TryParse` lies in the 32-bit range. |

## Left out

- HTTP and XML: the request, `EnsureSuccessStatusCode` and `XDocument.Parse` are not modelled. An answer is an already-parsed sequence of entries, or an error.
- Entry namespaces: the Atom-namespace lookup of `comment` (arXiv publishes it in its own namespace) is not modelled. The entry holds whatever the lookup returns.
- Libraries given as parameters: `DateTime.TryParse` (culture-dependent), `Uri` creation and `ToString`, `AI_GENERATE_EMBEDDINGS`, `VECTOR_DISTANCE`, and DbUp's script execution and journal.
- Embeddings and distances: embeddings are opaque values naming the model and the text; distances are numbers carried through in store order.
- Text: case-insensitive comparison and `ToUpperInvariant` are modelled on ASCII letters only.
- Json: only the metadata object shape is read, and the JSON reader is a subset parser. It does not accept `null` lists, `null` elements inside a list (`{"authors":[null]}`, which `System.Text.Json` reads as a list holding a null), or extra members whose value is not an array of strings (other keys with a string-array value are read and ignored).
- Asynchrony: async streams, cancellation tokens, logging and the Polly resilience pipeline are left out. The pipeline is the pass-through `ResiliencePipeline.Empty` the tests install.
- Connection plumbing: `DapperConnection`'s own defects are left out. Its `BeginTransaction` disposes its connection, and its `QueryFirstOrDefaultAsync` uses the wrong connection. Database calls are modelled as what their SQL does, or as an injected failure per call.
- IngestionService.ProcessIndexingRequest: builds the rows of the whole stream before saving. The stream is finite and fully determined by the request, so this is the same as saving each paper as it is yielded. A failing stream is modelled as ending with its exception after the papers it yielded.
- Client interface mismatch: the ingestion's client call `GetPapers` is not declared by the client interface in this snapshot. So the ingestion consumes an abstract paper stream rather than `ArxivApiClient.GetPaperInfo`.
- Undeclared variable name: the deployment program puts the external embedding model under `EnvironmentVariables.ExternalEmbeddingModel`, which `EnvironmentVariables` does not declare, so that program does not compile in this snapshot. The model keeps the value and gives it no variable name.
- Configuration keys: .NET configuration matches keys ignoring case. The model's configuration is a map holding at most one entry per key ignoring case, spelled as the code spells it, and looks keys up exactly.
- ArXiv id comparison: the `DELETE … WHERE [ArxivId] = @ArxivId` statements compare under the column's collation, which the schema scripts set and which is not part of this model. The model compares arXiv ids as exact strings. So the frame lemmas and the uniqueness in `Wellformed` hold as stated only under an exact-match (binary) collation. Under a case-insensitive default such as `SQL_Latin1_General_CP1_CI_AS`, ids differing only in case or trailing spaces would share rows.
- `IsValidId`: the unit tests exercise it, but its implementation is not part of this model.
- Embedding table keys: they are keyed by the document `Id`. A second embedding row for one `Id` cannot arise while arXiv ids are unique and identities increase, which `Wellformed` states.
- `Defaults.DefaultEmbeddingDimensions`: its value is not part of this model. It is the parameter `defaultDimensions`.
- Orchestration: the app host, the HTTP endpoints, the function hosts and `TypeHandlerRegistry` are wiring only.
- IngestionService.Save: a failing `INSERT` is taken to use up its identity value, as SQL Server does for a statement that fails after it began; whether a call that fails before reaching the server does so is not modelled separately.
- SearchService.Search: the store's SQL (the join, `TOP` and ordering) is a parameter. `SearchKeepsRanking` states what the service preserves of it.

## Findings

| source | as written | input that shows it | evidently intended | confidence | as-written member | corrected member |
|---|---|---|---|---|---|---|
| src/Sql.SemanticSearch.Core/ArXiv/ArxivApiClient.cs:107-110 | each id is cut at its first `v` (`Split('v')[0]`) to remove a version | `solv-int/9901001` is requested as `sol` | remove only a trailing `v<digits>` version | high, not executed | ArxivApiClient.SolvIntRequest | ArxivApiClient.StripVersion |
| src/Sql.SemanticSearch.Core/Configuration/ConfigurationManagerExtensions.cs:23-25 | `EmbeddingModelDimensions` is never assigned, so the search declares `VECTOR(0)` | any configuration, e.g. with `EmbeddingDimensions` = `768` | read `EmbeddingDimensions` with the deployment's positive-or-default rule | medium, not executed | SearchService.SearchDeclaresZeroDimensions | Configuration.GetAISettingsWithDimensions |
