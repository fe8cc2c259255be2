/**
 * `recognize_batch`, the `/recognize-batch` endpoint of `api.py` (and of its
 * copy `backend/api.py`): reject an empty upload list, obtain the shared
 * service, then run every file through the per-file pipeline.
 */
module Api {
  import opened Wrappers
  import opened VectorIndex
  import opened Services
  import opened Models
  import opened Ingest

  /**
   * Why the endpoint does not answer with a batch: `HTTPException(400)` for
   * an empty upload list, or the exception raised by `RecognitionService.instance()`.
   */
  datatype BatchError = NoFiles | ServiceFailed(cause: LoadError)

  /** The HTTP status each error is answered with. */
  function Status(e: BatchError): (code: int)
    ensures code == 400 <==> e.NoFiles?
    ensures code == 400 || code == 500
  {
    match e
    case NoFiles => 400
    case ServiceFailed(_) => 500
  }

  /** `recognize_batch(files)`, with the shared service held by `slot`. */
  method RecognizeBatch(slot: ServiceSlot, files: seq<Upload>, o: Oracles, c: Codec)
      returns (r: Result<RecognizeBatchResponse, BatchError>)
    requires slot.Valid()
    modifies slot, slot.instance, slot.file
    ensures slot.Valid()
    ensures |files| == 0 ==> r == Failure(NoFiles) && Status(r.error) == 400
    ensures |files| == 0 ==> unchanged(slot, slot.file) && (old(slot.instance) != null ==> unchanged(old(slot.instance)))
    ensures |files| > 0 && old(slot.Started()).None? ==>
      r.Failure? && r.error.ServiceFailed? && Status(r.error) == 500 && slot.instance == null && unchanged(slot.file)
    ensures |files| > 0 && old(slot.Started()).Some? ==>
      var batch := ProcessFiles(old(slot.Started()).value, files, o, c);
      && r == Success(RecognizeBatchResponse(batch.outputs))
      && slot.instance != null && slot.instance.Current() == batch.after
    ensures old(slot.instance) != null ==> slot.instance == old(slot.instance)
  {
    if |files| == 0 {
      return Failure(NoFiles);
    }
    var got := slot.Instance();
    if got.Failure? {
      return Failure(ServiceFailed(got.error));
    }
    var service := got.value;
    var outputs := HandleUploads(service, files, o, c);
    return Success(RecognizeBatchResponse(outputs));
  }
}
