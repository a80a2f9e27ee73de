/**
  The loading loop of `load_and_split_documents`: walk the directory listing
  in order, skip files whose extension selects no loader, load the others,
  append what a successful load returns, and report a failed load once
  (`st.error`) without stopping. The splitter that runs afterwards is library
  code and is not part of this model.
*/
module Ingestion {
  import opened Wrappers
  import opened Extension

  /** A document returned by a loader: its text and the file it came from. */
  datatype Document = Document(pageContent: string, source: string)

  /** The report `st.error(f"Failed to load {filename}: {e}")` shows. */
  datatype LoadError = LoadError(filename: string, reason: string)

  /**
    A loader oracle: constructing the loader of kind `k` for a file and
    calling its `load()`, which returns the documents or raises.
  */
  type Loader = (LoaderKind, string) -> Result<seq<Document>>

  /** What the loop has collected: the documents and the error reports. */
  datatype Ingest = Ingest(docs: seq<Document>, errors: seq<LoadError>)

  /** One iteration of the loop body, on the state collected so far. */
  function Step(acc: Ingest, filename: string, load: Loader): (r: Ingest)
    ensures Dispatch(filename) == Skip ==> r == acc
    ensures |acc.docs| <= |r.docs| && r.docs[..|acc.docs|] == acc.docs
    ensures |acc.errors| <= |r.errors| <= |acc.errors| + 1 && r.errors[..|acc.errors|] == acc.errors
  {
    match Dispatch(filename)
    case Skip => acc
    case Load(k) =>
      match load(k, filename)
      case Success(ds) => Ingest(acc.docs + ds, acc.errors)
      case Failure(e) => Ingest(acc.docs, acc.errors + [LoadError(filename, e)])
  }

  /** The state after the loop has walked `listing`, one file at a time. */
  function IngestAll(listing: seq<string>, load: Loader): (r: Ingest)
    ensures |r.errors| <= |listing|
  {
    if listing == [] then Ingest([], [])
    else Step(IngestAll(listing[..|listing| - 1], load), listing[|listing| - 1], load)
  }

  /** The documents one file contributes: its loaded documents if it has a loader and loads. */
  function DocsOf(filename: string, load: Loader): seq<Document>
  {
    match Dispatch(filename)
    case Skip => []
    case Load(k) => if load(k, filename).Success? then load(k, filename).value else []
  }

  /** The error reports one file contributes: one if it has a loader and its load fails. */
  function ErrorsOf(filename: string, load: Loader): seq<LoadError>
  {
    match Dispatch(filename)
    case Skip => []
    case Load(k) => if load(k, filename).Failure? then [LoadError(filename, load(k, filename).error)] else []
  }

  /** Reference: the concatenation, in listing order, of what each file contributes. */
  function LoadedDocs(listing: seq<string>, load: Loader): seq<Document>
  {
    if listing == [] then [] else DocsOf(listing[0], load) + LoadedDocs(listing[1..], load)
  }

  /** Reference: the error reports of the failing files, in listing order. */
  function FailureReports(listing: seq<string>, load: Loader): seq<LoadError>
  {
    if listing == [] then [] else ErrorsOf(listing[0], load) + FailureReports(listing[1..], load)
  }

  /** One loop iteration appends exactly that file's contribution. */
  lemma StepAppendsContribution(acc: Ingest, filename: string, load: Loader)
    ensures Step(acc, filename, load)
         == Ingest(acc.docs + DocsOf(filename, load), acc.errors + ErrorsOf(filename, load))
  {
  }

  lemma {:induction false} LoadedDocsAppend(a: seq<string>, b: seq<string>, load: Loader)
    ensures LoadedDocs(a + b, load) == LoadedDocs(a, load) + LoadedDocs(b, load)
  {
    if a == [] {
      assert a + b == b;
    } else {
      assert (a + b)[0] == a[0];
      assert (a + b)[1..] == a[1..] + b;
      LoadedDocsAppend(a[1..], b, load);
      var d := DocsOf(a[0], load);
      calc {
        LoadedDocs(a + b, load);
        d + LoadedDocs(a[1..] + b, load);
        d + (LoadedDocs(a[1..], load) + LoadedDocs(b, load));
        (d + LoadedDocs(a[1..], load)) + LoadedDocs(b, load);
      }
    }
  }

  lemma {:induction false} FailureReportsAppend(a: seq<string>, b: seq<string>, load: Loader)
    ensures FailureReports(a + b, load) == FailureReports(a, load) + FailureReports(b, load)
  {
    if a == [] {
      assert a + b == b;
    } else {
      assert (a + b)[0] == a[0];
      assert (a + b)[1..] == a[1..] + b;
      FailureReportsAppend(a[1..], b, load);
      var r := ErrorsOf(a[0], load);
      calc {
        FailureReports(a + b, load);
        r + FailureReports(a[1..] + b, load);
        r + (FailureReports(a[1..], load) + FailureReports(b, load));
        (r + FailureReports(a[1..], load)) + FailureReports(b, load);
      }
    }
  }

  /** The reference of a one-file listing is that file's contribution. */
  lemma SingleFile(f: string, load: Loader)
    ensures LoadedDocs([f], load) == DocsOf(f, load)
    ensures FailureReports([f], load) == ErrorsOf(f, load)
  {
    assert [f][1..] == [];
  }

  /**
    The loop's result is exactly the per-file contributions concatenated in
    listing order: documents of the files that loaded, reports of the files
    that failed.
  */
  lemma {:induction false} IngestAllIsConcatenation(listing: seq<string>, load: Loader)
    ensures IngestAll(listing, load) == Ingest(LoadedDocs(listing, load), FailureReports(listing, load))
  {
    if listing != [] {
      var init, f := listing[..|listing| - 1], listing[|listing| - 1];
      assert listing == init + [f];
      IngestAllIsConcatenation(init, load);
      LoadedDocsAppend(init, [f], load);
      FailureReportsAppend(init, [f], load);
      SingleFile(f, load);
      var acc := IngestAll(init, load);
      assert IngestAll(listing, load) == Step(acc, f, load);
      StepAppendsContribution(acc, f, load);
    }
  }

  /** Walking `a + b` is walking `a`, then walking `b` from where `a` left off. */
  lemma IngestAllAppend(a: seq<string>, b: seq<string>, load: Loader)
    ensures IngestAll(a + b, load).docs == IngestAll(a, load).docs + IngestAll(b, load).docs
    ensures IngestAll(a + b, load).errors == IngestAll(a, load).errors + IngestAll(b, load).errors
  {
    IngestAllIsConcatenation(a + b, load);
    IngestAllIsConcatenation(a, load);
    IngestAllIsConcatenation(b, load);
    LoadedDocsAppend(a, b, load);
    FailureReportsAppend(a, b, load);
  }

  /** A skipped file contributes no documents and no error report. */
  lemma SkippedFileContributesNothing(a: seq<string>, f: string, b: seq<string>, load: Loader)
    requires Dispatch(f) == Skip
    ensures IngestAll(a + [f] + b, load) == IngestAll(a + b, load)
  {
    IngestAllAppend(a + [f], b, load);
    IngestAllAppend(a, [f], load);
    IngestAllAppend(a, b, load);
    assert [f][..0] == [];
  }

  /**
    A supported file whose load fails contributes no documents and exactly one
    error report naming it, and the files after it are still processed.
  */
  lemma FailedFileReportedOnce(a: seq<string>, f: string, b: seq<string>, load: Loader)
    requires Dispatch(f).Load? && load(Dispatch(f).loader, f).Failure?
    ensures IngestAll(a + [f] + b, load).docs == IngestAll(a, load).docs + IngestAll(b, load).docs
    ensures IngestAll(a + [f] + b, load).errors
         == IngestAll(a, load).errors + [LoadError(f, load(Dispatch(f).loader, f).error)] + IngestAll(b, load).errors
  {
    IngestAllAppend(a + [f], b, load);
    IngestAllAppend(a, [f], load);
    assert [f][..0] == [];
  }

  /**
    An error report for `f` with reason `e` is produced exactly when `f` is in
    the listing, has a loader, and that loader fails on it with `e`.
  */
  lemma {:induction false} ErrorReportIff(listing: seq<string>, load: Loader, f: string, e: string)
    ensures LoadError(f, e) in IngestAll(listing, load).errors
        <==> f in listing && Dispatch(f).Load? && load(Dispatch(f).loader, f) == Failure(e)
  {
    IngestAllIsConcatenation(listing, load);
    FailureReportsIff(listing, load, f, e);
  }

  lemma {:induction false} FailureReportsIff(listing: seq<string>, load: Loader, f: string, e: string)
    ensures LoadError(f, e) in FailureReports(listing, load)
        <==> f in listing && Dispatch(f).Load? && load(Dispatch(f).loader, f) == Failure(e)
  {
    if listing != [] {
      FailureReportsIff(listing[1..], load, f, e);
      assert f in listing <==> f == listing[0] || f in listing[1..];
    }
  }

  /**
    The loading loop of `load_and_split_documents`. `listing` stands for
    `os.listdir(folder_path)`; `errors` collects the `st.error` reports.
  */
  method LoadDocuments(listing: seq<string>, load: Loader) returns (allDocuments: seq<Document>, errors: seq<LoadError>)
    ensures allDocuments == LoadedDocs(listing, load)
    ensures errors == FailureReports(listing, load)
  {
    allDocuments, errors := [], [];
    for i := 0 to |listing|
      invariant Ingest(allDocuments, errors) == IngestAll(listing[..i], load)
    {
      var filename := listing[i];
      assert listing[..i + 1][..i] == listing[..i];
      var extension := ExtensionOf(filename);
      var loader: LoaderKind;
      if extension == "txt" {
        loader := TextLoader;
      } else if extension == "pdf" {
        loader := PyPdfLoader;
      } else if extension in UnstructuredExtensions {
        loader := UnstructuredFileLoader;
      } else {
        continue;
      }
      match load(loader, filename)
      case Success(documents) =>
        allDocuments := allDocuments + documents;
      case Failure(e) =>
        errors := errors + [LoadError(filename, e)];
    }
    assert listing[..|listing|] == listing;
    IngestAllIsConcatenation(listing, load);
  }
}
