/**
 * `IndexStatusHandler`: the callbacks the dtSearch engine makes while a job
 * runs. It holds the indexer and only reads its stop flags or passes a
 * progress report on.
 */
module StatusHandler {
  import opened Indexer

  /** The engine's `AbortValue`. */
  datatype AbortValue = Continue | Cancel | CancelImmediately

  class IndexStatusHandler {
    const indexer: DtSearchIndexer

    constructor (indexer: DtSearchIndexer)
      ensures this.indexer == indexer
    {
      this.indexer := indexer;
    }

    /**
     * Lines 11-14: go on unless a stop was pressed; a stop cancels, at once
     * when an immediate abort was asked for as well.
     */
    function CheckForAbort(): (r: AbortValue)
      reads indexer`stopPressed, indexer`abortImmediately
      ensures !indexer.stopPressed ==> r == Continue
      ensures indexer.stopPressed && indexer.abortImmediately ==> r == CancelImmediately
      ensures indexer.stopPressed && !indexer.abortImmediately ==> r == Cancel
    {
      if indexer.stopPressed then
        (if indexer.abortImmediately then CancelImmediately else Cancel)
      else Continue
    }

    /** Lines 16-18: the report goes to the indexer once. */
    method OnProgressUpdate(info: IndexingStep) returns (report: Report)
      modifies indexer`recCount, indexer`notified
      ensures report == NullLogger <==> info.Other? && !indexer.hasLogger
      ensures report == NullLogger ==> indexer.recCount == old(indexer.recCount) && indexer.notified == old(indexer.notified)
      ensures report != NullLogger ==>
        && indexer.recCount == NextCount(old(indexer.recCount), info)
        && indexer.notified == old(indexer.notified) + [info]
    {
      report := indexer.HandleProgressChange(info);
    }
  }

  /** The abort decision the handler gives for two flag values. */
  function AbortFor(stopPressed: bool, abortImmediately: bool): AbortValue {
    if stopPressed then (if abortImmediately then CancelImmediately else Cancel) else Continue
  }

  /** The handler's decision is `AbortFor` of the indexer's flags; it changes nothing. */
  lemma CheckForAbortReadsFlags(h: IndexStatusHandler)
    ensures h.CheckForAbort() == AbortFor(h.indexer.stopPressed, h.indexer.abortImmediately)
  {
  }

  /**
   * When an immediate abort comes only with a stop, the completion the job
   * logs matches what the handler told the engine: not updated after an
   * immediate cancel, partly updated after a cancel, complete otherwise.
   * Without a stop, an immediate abort is logged as a halt the engine was
   * never told of.
   */
  lemma CompletionMatchesAbort(stopPressed: bool, abortImmediately: bool)
    ensures (abortImmediately ==> stopPressed) ==>
      && (CompletionOf(stopPressed, abortImmediately) == HaltedNotUpdated <==> AbortFor(stopPressed, abortImmediately) == CancelImmediately)
      && (CompletionOf(stopPressed, abortImmediately) == HaltedPartiallyUpdated <==> AbortFor(stopPressed, abortImmediately) == Cancel)
      && (CompletionOf(stopPressed, abortImmediately) == Complete <==> AbortFor(stopPressed, abortImmediately) == Continue)
    ensures abortImmediately && !stopPressed ==>
      CompletionOf(stopPressed, abortImmediately) == HaltedNotUpdated && AbortFor(stopPressed, abortImmediately) == Continue
  {
  }
}
