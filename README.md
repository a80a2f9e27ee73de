# Ingestion, metric registration and outcome accounting of a RAG health-care assistant

The application is a single Streamlit script (`app/main.py`). It stores uploaded
files in a staging folder and loads them with a loader chosen by file extension.
It embeds the loaded documents into a Pinecone vector index and answers queries
with a similarity search. Four prometheus counters record how uploads and queries
turn out. This project models the decision and bookkeeping logic inside that glue.
Every call into LangChain, Pinecone, OpenAI or prometheus_client is an oracle
value that either succeeds or fails.

- `extension.dfy` (module `Extension`): the extension of a file name is
  `filename.lower().split(".")[-1]`. `Split` is Python's `str.split` with a
  one-character separator. `ExtensionOf` applies it to the lower-cased name.
  `RouteFor` maps the extension to the text loader, the PDF loader, the
  unstructured loader, or a skip.
- `ingestion.dfy` (module `Ingestion`): the loading loop of
  `load_and_split_documents`. The method `LoadDocuments` walks the listing with a
  loop. It is proved against the fold `IngestAll` and against the independent
  in-order concatenation `LoadedDocs` / `FailureReports`.
- `metrics.dfy` (module `Metrics`): the prometheus registry is a map from names to
  collectors. Constructing a metric registers it: `Construct`, and the class
  method `Registry.NewMetric`. Registering a taken name raises. `GetOrCreate` and
  `Registry.GetOrCreateMetric` model `get_or_create_metric`. `DeclareAll` models
  the six declarations that run each time Streamlit re-executes the script.
- `accounting.dfy` (module `Accounting`): the four counters. The `Telemetry` class
  holds them and the `st.success`/`st.error` notices. Its methods model
  `upload_documents_to_pinecone` and `query_pinecone`. They are tied to the pure
  updates `AfterUpload` and `AfterQuery`. `ReplayCounts` states what the counters
  hold after any history of calls.
- `vector_index.dfy` (module `VectorIndex`): the index service is a map from index
  names to configurations. `InitPinecone` creates the configured index with
  dimension 1536 and the cosine metric only when the name is not listed.
  `EnsureIndex` is its specification.
- `wrappers.dfy` (module `Wrappers`): `Result` and `Outcome`, the success-or-raise
  results of the oracles.

A file whose whole name is a supported extension is loaded: a file named `PDF`
has no dot, so the whole lower-cased name `pdf` is its extension.
`DispatchNoDotTakenWhole` states this: `split(".")[-1]` returns the whole string
when there is no dot, and the model keeps that.

The script keeps no per-stage retrieval or generation counters, no in-progress
gauges, no per-user labels and no chunk-count histogram. A failed query returns
the empty list.

## Model

| member | source | states |
|---|---|---|
| `Extension.Lower` | app/main.py:47 | `lower()` on one character: the result is never an upper-case letter; an upper-case letter becomes a lower-case letter and every other character is kept |
| `Extension.LowerStr` | app/main.py:47 | `filename.lower()` keeps the length and lowers every character in place |
| `Extension.Split` | app/main.py:47 | `split(".")` yields at least one piece; with no `.` in the text the one piece is the whole text, and with a `.` there are at least two pieces |
| `Extension.SplitPiecesSeparatorFree` | app/main.py:47 | no piece of `split(".")` contains a `.` |
| `Extension.JoinSplit` | app/main.py:47 | round trip: joining the pieces with `.` gives the text back |
| `Extension.LastPieceIsSuffix` | app/main.py:47 | the last piece (`[-1]`) is a suffix of the text; if the text has a `.` the piece is shorter than the text and the character just before it is `.` |
| `Extension.ExtensionOfShape` | app/main.py:47 | the properties of `ExtensionOf`, which has no contract of its own: the extension `filename.lower().split(".")[-1]` has no `.` and no upper-case letter; it is a suffix of the lower-cased name; it is the whole lower-cased name when the name has no `.`, and otherwise it starts right after a `.` |
| `Extension.ExtensionIgnoresCase` | app/main.py:47 | for `ExtensionOf`: two names that differ only in letter case have the same extension |
| `Extension.ExtensionAfterLastDot` | app/main.py:47 | for `stem.ext` with a dot-free `ext`, the extension is `ext` lower-cased, whatever dots `stem` contains |
| `Extension.DotBeforeDotFreeSuffix` | app/main.py:47 | a `.` in a name lies before any dot-free suffix of it (used to pin the extension down) |
| `Extension.RouteFor` | app/main.py:50-57 | `txt` selects the text loader, `pdf` the PDF loader, and `png`/`jpg`/`jpeg`/`docx`/`html`/`eml` the unstructured loader, each if and only if; everything else is skipped, again if and only if |
| `Extension.UnlistedExtensionsSkipped` | app/main.py:56-57 | the empty extension, `doc` and `md` are skipped |
| `Extension.DispatchUpperCaseImage` | app/main.py:47-55 | `Dispatch`, the whole `if`/`elif` chain on a file name, which has no contract of its own: `Scan.JPEG` goes to the unstructured loader |
| `Extension.DispatchLastDotOnly` | app/main.py:47-51 | `archive.tar.TXT` goes to the text loader: only the text after the last dot counts |
| `Extension.DispatchMarkdownSkipped` | app/main.py:47-57 | `notes.md` is skipped |
| `Extension.DispatchNoDotTakenWhole` | app/main.py:47-53 | a file named `PDF` goes to the PDF loader, because a name without a dot is taken whole |
| `Ingestion.Step` | app/main.py:49-63 | one loop iteration: a skipped file leaves the accumulator unchanged; otherwise the documents and reports collected so far are kept as a prefix, and at most one report is added |
| `Ingestion.IngestAll` | app/main.py:44-63 | the loop as a fold over the listing: it reports at most one error per listed file |
| `Ingestion.StepAppendsContribution` | app/main.py:49-63 | one loop iteration appends exactly that file's documents and error reports |
| `Ingestion.LoadedDocsAppend` | app/main.py:44-60 | the documents of a concatenated listing are the documents of the first part followed by those of the second |
| `Ingestion.FailureReportsAppend` | app/main.py:45-63 | the same for the error reports |
| `Ingestion.SingleFile` | app/main.py:49-63 | a one-file listing yields exactly that file's contribution |
| `Ingestion.IngestAllIsConcatenation` | app/main.py:44-63 | the loop's result is exactly the in-order concatenation of the documents of the supported files that loaded, and of one report per supported file that failed |
| `Ingestion.IngestAllAppend` | app/main.py:45-63 | walking `a + b` collects what walking `a` collects, followed by what walking `b` collects |
| `Ingestion.SkippedFileContributesNothing` | app/main.py:56-57 | removing an unsupported file from anywhere in the listing changes neither the documents nor the reports |
| `Ingestion.FailedFileReportedOnce` | app/main.py:49-63 | a supported file whose load fails adds no documents and exactly one report naming it, and the files after it are still processed |
| `Ingestion.ErrorReportIff` | app/main.py:62-63 | a report `(f, e)` is produced if and only if `f` is listed, has a loader, and that loader fails on it with `e` |
| `Ingestion.FailureReportsIff` | app/main.py:62-63 | the same, for the in-order reference list of reports |
| `Ingestion.LoadDocuments` | app/main.py:43-63 | the loop, with `continue` for skipped files; its documents and reports equal the in-order references `LoadedDocs` and `FailureReports` |
| `Metrics.Construct` | app/main.py:26 | constructing a metric raises if and only if its declared name is taken (invalid names, derived sample names and the `_total` suffix: see Left out); otherwise the new collector has the given kind, declared name and documentation and is registered under its name; it keeps the registry invariant and its handle differs from every registered one |
| `Metrics.GetOrCreate` | app/main.py:23-26 | afterwards the name is registered and bound to the returned collector; a taken name returns the registered collector and leaves the registry unchanged; a new name adds exactly that name and keeps every other entry; the registry invariant is preserved |
| `Metrics.GetOrCreateIdempotent` | app/main.py:23-26 | a second call with the same name returns the same collector and leaves the registry as the first call left it, whatever kind or documentation it passes |
| `Metrics.NewCollectorIsFresh` | app/main.py:26 | a collector created for a new name differs from every registered collector |
| `Metrics.DeclaredNames` | app/main.py:34-40 | every declared name is in the set of declared names |
| `Metrics.DeclareAll` | app/main.py:34-40 | after the declarations every declared name is bound to the collector returned for it; names registered before keep their collectors; the registered names are exactly the old ones plus the declared ones, so nothing else is registered; the registry invariant is preserved |
| `Metrics.DeclareRegisteredIsNoop` | app/main.py:34-40 | declarations whose names are all registered leave the registry unchanged |
| `Metrics.RerunKeepsMetrics` | app/main.py:34-40 | re-executing the declarations, as a Streamlit re-render does, returns the same collectors and registers nothing |
| `Metrics.DeclaredMetricsDistinct` | app/main.py:34-40 | declarations with distinct names yield collectors with distinct handles |
| `Metrics.ScriptMetricsDistinct` | app/main.py:34-40 | the script's six metrics are six distinct collectors |
| `Metrics.Registry.constructor` | app/main.py:11 | the registry starts with the collectors prometheus_client registered when it was imported, given as a valid registry state |
| `Metrics.Registry.NewMetric` | app/main.py:26 | the in-place registration step: it fails and changes nothing on a taken name, and otherwise returns and registers the collector `Construct` describes |
| `Metrics.Registry.GetOrCreateMetric` | app/main.py:23-26 | the in-place registry and the returned collector are those `GetOrCreate` gives for the old registry |
| `Accounting.AfterUpload` | app/main.py:84-93 | an upload raises the counter total by exactly one; success increments `total_uploads` and failure increments `upload_failures_total`, each if and only if; the query counters do not change |
| `Accounting.AfterQuery` | app/main.py:97-110 | a query raises the counter total by exactly one; success increments `total_queries` and failure increments `query_failures_total`, each if and only if; the upload counters do not change |
| `Accounting.Replay` | app/main.py:84-110 | a history of calls raises the counter total by exactly the number of calls |
| `Accounting.ReplayCounts` | app/main.py:84-110 | from zero, each counter equals the number of calls of its kind and outcome in the history |
| `Accounting.Telemetry.constructor` | app/main.py:34-37 | all four counters start at zero and nothing has been shown |
| `Accounting.Telemetry.UploadDocumentsToPinecone` | app/main.py:83-93 | the counters move as `AfterUpload` says; exactly one notice is shown: success with the chunk count, or the failure reason |
| `Accounting.Telemetry.QueryPinecone` | app/main.py:96-110 | the counters move as `AfterQuery` says; on success the search results are returned unchanged and nothing is shown; on failure the empty list is returned and one failure notice is shown |
| `VectorIndex.EnsureIndex` | app/main.py:72-80 | afterwards the name is present; an absent name gets dimension 1536, cosine, `aws` and the region; a present name leaves the map unchanged; no other entry changes |
| `VectorIndex.EnsureIndexIdempotent` | app/main.py:74-80 | ensuring twice is the same as ensuring once, even with another region the second time |
| `VectorIndex.MismatchUndetected` | app/main.py:74 | an existing index with another dimension or metric is kept, and the mismatch goes unnoticed |
| `VectorIndex.IndexService.constructor` | app/main.py:73 | the service starts with the indexes that already exist |
| `VectorIndex.IndexService.CreateIndex` | app/main.py:75-80 | an existing name is refused and nothing changes; for a new name the result is the service's outcome, and on success the index is added under its name with the given configuration, on failure nothing changes |
| `VectorIndex.InitPinecone` | app/main.py:72-80 | a listed name leaves the indexes unchanged; an absent name is created with (1536, cosine); whenever the call succeeds the indexes are `EnsureIndex` of the old ones, and so the name is present; a failed creation changes nothing and its error reaches the caller |

## Left out

- Streamlit UI and session state are not modelled: the title, sidebar, buttons, result rendering, the "Files uploaded!" message, the empty-query warning (app/main.py:113-149) and the one-time `start_http_server(9001)` guard (app/main.py:29-31). This is presentation and network plumbing.
- The "Process & Upload" button handler (app/main.py:134-138) is not modelled as one operation. It calls `init_pinecone`, then the loading, then the upload; each of those is modelled on its own.
- File-system work is not modelled. Writing uploaded files (app/main.py:127-132) is I/O. `os.listdir` is the `listing` parameter, and `os.path.join` is folded into the loader oracle, which receives the file name.
- Environment loading (app/main.py:14-20) is configuration I/O. The index name and region are parameters. A missing variable is not modelled.
- Chunking is not modelled: `CharacterTextSplitter(...).split_documents` (app/main.py:65-66) is library code. `LoadDocuments` stops before it.
- External services are oracle values that succeed or fail. This covers OpenAI embeddings, Pinecone client construction, `PineconeVectorStore.from_documents` and `similarity_search`. Their internals, and the exception text they carry, are not modelled.
- Accounting.Telemetry.QueryPinecone: the result is not bounded by `top_k`, because that bound is a promise of `similarity_search`, whose code is not part of this model.
- Extension.Lower / Extension.LowerStr: the model's `Lower` lowers only ASCII `A`-`Z`, while `str.lower()` applies full Unicode case mapping, including mappings that change a string's length. Dispatch is unaffected: no non-ASCII character lowers to a letter of a supported extension (U+212A KELVIN SIGN lowers to `k`, U+0130 to `i` followed by U+0307, and neither `k` nor `i` occurs in one), so the model chooses the same route as the script for every name.
- Metrics.Construct: prometheus_client's registration also raises when one of the new collector's derived sample names clashes with a registered name, for example a Histogram `y` after a Counter `y_count`; so `get_or_create_metric` can raise too. The model raises only when the declared name itself is taken. The metric constructors also raise before registering anything when the name is empty or fails the library's name check (for example `a-b`); the model accepts every name. A Counter declared as `x_total` drops the suffix and is called `x`, with `x_total` only one of its sample names; the model files it under the declared name, which is the name the script looks up. None of the script's six names is empty, invalid or clashes with another's derived names.
- Metrics.GetOrCreate: prometheus_client also files each collector under derived sample names (`_total`, `_created`, `_bucket`, ...). Only the declared name is registered here, so a lookup that hits another collector's derived name is not captured. Creating a metric under an empty or invalid new name raises in the source, while the model registers it.
- Accounting.AfterUpload / Accounting.AfterQuery: counts are unbounded naturals in the model. prometheus_client keeps a counter's value as a float64 and `inc()` adds 1.0, so above 2^53 an increment no longer changes the value; the "exactly one" of these members, `Replay` and `ReplayCounts` holds only below that bound.
- `**kwargs` of `get_or_create_metric` are not modelled, because no call in the script passes any.
- VectorIndex.InitPinecone: only the failure of `create_index` is modelled. A failure of `Pinecone(api_key=...)` or of `list_indexes()` would also propagate, and is not modelled.
- The latency histograms (`@...time()`, app/main.py:82 and 95) are not modelled, because they observe wall-clock floats. Their registration is modelled.
- Thread safety of counter increments is not modelled. It is concurrency inside prometheus_client; every call here runs to completion before the next one.
