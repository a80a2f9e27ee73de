/**
  Outcome accounting of `upload_documents_to_pinecone` and `query_pinecone`:
  every call runs one external operation, which succeeds or raises, and bumps
  exactly one of four prometheus counters. A failed query shows an error and
  returns an empty result list instead of raising.
*/
module Accounting {
  import opened Wrappers
  import opened Ingestion

  /** The values of the four counters the script increments. */
  datatype Counters = Counters(
    totalQueries: nat, totalUploads: nat, uploadFailuresTotal: nat, queryFailuresTotal: nat)

  /** Every counter starts at zero when it is created. */
  const Zero := Counters(0, 0, 0, 0)

  function Total(c: Counters): nat
  {
    c.totalQueries + c.totalUploads + c.uploadFailuresTotal + c.queryFailuresTotal
  }

  /**
    The counters after one upload call: exactly one of `total_uploads` (on
    success) and `upload_failures_total` (on failure) goes up by one.
  */
  function AfterUpload(c: Counters, succeeded: bool): (r: Counters)
    ensures Total(r) == Total(c) + 1
    ensures r.totalQueries == c.totalQueries && r.queryFailuresTotal == c.queryFailuresTotal
    ensures succeeded <==> r.totalUploads == c.totalUploads + 1
    ensures !succeeded <==> r.uploadFailuresTotal == c.uploadFailuresTotal + 1
  {
    if succeeded then c.(totalUploads := c.totalUploads + 1)
    else c.(uploadFailuresTotal := c.uploadFailuresTotal + 1)
  }

  /**
    The counters after one query call: exactly one of `total_queries` (on
    success) and `query_failures_total` (on failure) goes up by one.
  */
  function AfterQuery(c: Counters, succeeded: bool): (r: Counters)
    ensures Total(r) == Total(c) + 1
    ensures r.totalUploads == c.totalUploads && r.uploadFailuresTotal == c.uploadFailuresTotal
    ensures succeeded <==> r.totalQueries == c.totalQueries + 1
    ensures !succeeded <==> r.queryFailuresTotal == c.queryFailuresTotal + 1
  {
    if succeeded then c.(totalQueries := c.totalQueries + 1)
    else c.(queryFailuresTotal := c.queryFailuresTotal + 1)
  }

  /** One call of the upload or query function, with the outcome of its external operation. */
  datatype Call = Upload(succeeded: bool) | Query(succeeded: bool)

  /** The counters after a history of calls, made one after another from `c`. */
  function Replay(c: Counters, calls: seq<Call>): (r: Counters)
    ensures Total(r) == Total(c) + |calls|
  {
    if calls == [] then c
    else
      var before := Replay(c, calls[..|calls| - 1]);
      match calls[|calls| - 1]
      case Upload(ok) => AfterUpload(before, ok)
      case Query(ok) => AfterQuery(before, ok)
  }

  /**
    From zero, each counter equals the number of calls of its kind and
    outcome; in particular `total_uploads + upload_failures_total` is the
    number of upload calls and `total_queries + query_failures_total` the
    number of query calls.
  */
  lemma {:induction false} ReplayCounts(calls: seq<Call>)
    ensures Replay(Zero, calls) == Counters(
      multiset(calls)[Query(true)], multiset(calls)[Upload(true)],
      multiset(calls)[Upload(false)], multiset(calls)[Query(false)])
  {
    if calls != [] {
      var init := calls[..|calls| - 1];
      ReplayCounts(init);
      var before := Replay(Zero, init);
      CountLast(calls, Query(true));
      CountLast(calls, Upload(true));
      CountLast(calls, Upload(false));
      CountLast(calls, Query(false));
      match calls[|calls| - 1]
      case Upload(ok) => assert Replay(Zero, calls) == AfterUpload(before, ok);
      case Query(ok) => assert Replay(Zero, calls) == AfterQuery(before, ok);
    }
  }

  /** The last call adds one to its own count and leaves every other count alone. */
  lemma CountLast(calls: seq<Call>, k: Call)
    requires calls != []
    ensures multiset(calls)[k] ==
      multiset(calls[..|calls| - 1])[k] + (if k == calls[|calls| - 1] then 1 else 0)
  {
    assert calls == calls[..|calls| - 1] + [calls[|calls| - 1]];
  }

  /** What the page shows through `st.success` and `st.error`. */
  datatype Notice = UploadSucceeded(chunks: nat) | UploadFailed(reason: string) | QueryFailed(reason: string)

  /**
    The four counters, updated in place by `.inc()`, and the notices shown so
    far.
  */
  class Telemetry {
    var totalQueries: nat
    var totalUploads: nat
    var uploadFailuresTotal: nat
    var queryFailuresTotal: nat
    var notices: seq<Notice>

    function Counts(): Counters
      reads this
    {
      Counters(totalQueries, totalUploads, uploadFailuresTotal, queryFailuresTotal)
    }

    constructor ()
      ensures Counts() == Zero && notices == []
    {
      totalQueries, totalUploads, uploadFailuresTotal, queryFailuresTotal := 0, 0, 0, 0;
      notices := [];
    }

    /**
      `upload_documents_to_pinecone(docs, embeddings)`. `store` stands for
      connecting to the index and `PineconeVectorStore.from_documents`, which
      embeds and writes the chunks or raises.
    */
    method UploadDocumentsToPinecone(docs: seq<Document>, store: seq<Document> -> Outcome)
      modifies this
      ensures Counts() == AfterUpload(old(Counts()), store(docs).Pass?)
      ensures notices == old(notices) + [
        match store(docs)
        case Pass => UploadSucceeded(|docs|)
        case Fail(e) => UploadFailed(e)]
    {
      match store(docs)
      case Pass =>
        totalUploads := totalUploads + 1;
        notices := notices + [UploadSucceeded(|docs|)];
      case Fail(e) =>
        uploadFailuresTotal := uploadFailuresTotal + 1;
        notices := notices + [UploadFailed(e)];
    }

    /**
      `query_pinecone(query_text, top_k)`. `search` stands for creating the
      embeddings client, connecting to the index and `similarity_search`,
      which returns the matching documents or raises.
    */
    method QueryPinecone(queryText: string, topK: nat, search: (string, nat) -> Result<seq<Document>>)
      returns (results: seq<Document>)
      modifies this
      ensures Counts() == AfterQuery(old(Counts()), search(queryText, topK).Success?)
      ensures search(queryText, topK).Success? ==>
        results == search(queryText, topK).value && notices == old(notices)
      ensures search(queryText, topK).Failure? ==>
        results == [] && notices == old(notices) + [QueryFailed(search(queryText, topK).error)]
    {
      match search(queryText, topK)
      case Success(found) =>
        totalQueries := totalQueries + 1;
        return found;
      case Failure(e) =>
        queryFailuresTotal := queryFailuresTotal + 1;
        notices := notices + [QueryFailed(e)];
        return [];
    }
  }
}
