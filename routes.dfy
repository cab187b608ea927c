/** `POST /api/process-text` as a whole: the correction pipeline followed by the
    store update for the optional document id. */
module Routes {
  import opened Outcomes
  import opened Text
  import opened Pipeline
  import opened Documents

  /** Runs the pipeline for `user` against an agent registry (the application
      passes `Pipeline.Registry()`); on success the document named by the request,
      when it is the user's, receives the original input, the corrected text and
      the statistics. A rejected or failed request leaves the table as it was. */
  method ProcessText(
    table: DocumentTable,
    user: int,
    req: ProcessRequest,
    registry: map<string, Agent>,
    extract: string -> string,
    complete: CompletionRequest -> Option<string>,
    elapsed: real) returns (r: Result<Corrected, ProcessFailure>)
    requires table.Valid()
    modifies table
    ensures table.Valid()
    ensures r == Process(req, registry, extract, complete, elapsed)
    ensures r.Err? ==> table.rows == old(table.rows) && table.clock == old(table.clock)
    ensures r.Ok? && IsGiven(req.documentId) && old(table.Find(user, req.documentId.value)).Some? ==>
      table.rows == old(table.rows)[req.documentId.value := old(table.rows[req.documentId.value]).(
        content := req.texte, correctedContent := Some(r.value.resultat), status := "completed",
        wordCount := Some(r.value.stats.wordCount), correctionsCount := Some(r.value.stats.correctionsCount),
        processingTime := elapsed, updatedAt := old(table.clock))] &&
      table.clock == old(table.clock) + 1
    ensures r.Ok? && !(IsGiven(req.documentId) && old(table.Find(user, req.documentId.value)).Some?) ==>
      table.rows == old(table.rows) && table.clock == old(table.clock)
  {
    r := Process(req, registry, extract, complete, elapsed);
    if r.Ok? {
      table.RecordCorrection(user, req.documentId, req.texte, r.value.resultat,
                             r.value.stats.wordCount, r.value.stats.correctionsCount, elapsed);
    }
  }
}
