/**
 * `process_images_directly` of `streamlit_app.py`: the same per-file loop as
 * the HTTP endpoint, run over `zip(files, filenames)`, without the check for
 * an empty list and with any failure outside the per-file handling turned
 * into `None`.
 */
module StreamlitApp {
  import opened Wrappers
  import opened Services
  import opened Models
  import opened Ingest

  /** `zip(files, filenames)`: pairs up to the shorter list; the rest of the longer one is dropped. */
  function Zip(files: seq<seq<byte>>, filenames: seq<string>): (pairs: seq<Upload>)
    ensures |pairs| == if |files| <= |filenames| then |files| else |filenames|
    ensures forall i :: 0 <= i < |pairs| ==> pairs[i] == Upload(filenames[i], files[i])
    decreases |files|
  {
    if |files| == 0 || |filenames| == 0 then []
    else [Upload(filenames[0], files[0])] + Zip(files[1..], filenames[1..])
  }

  /** `process_images_directly(files, filenames)`: `Some(items)`, or `None` when the service cannot be created. */
  method ProcessImagesDirectly(slot: ServiceSlot, files: seq<seq<byte>>, filenames: seq<string>, o: Oracles, c: Codec)
      returns (r: Option<seq<RecognizePerImage>>)
    requires slot.Valid()
    modifies slot, slot.instance, slot.file
    ensures slot.Valid()
    ensures old(slot.Started()).None? ==> r == None && slot.instance == null && unchanged(slot.file)
    ensures old(slot.Started()).Some? ==>
      var batch := ProcessFiles(old(slot.Started()).value, Zip(files, filenames), o, c);
      && r == Some(batch.outputs)
      && slot.instance != null && slot.instance.Current() == batch.after
    ensures old(slot.instance) != null ==> slot.instance == old(slot.instance)
  {
    var got := slot.Instance();
    if got.Failure? {
      return None;
    }
    var service := got.value;
    var outputs := HandleUploads(service, Zip(files, filenames), o, c);
    return Some(outputs);
  }

  /** With no files (no 400 check here) the result is an empty item list, not an error. */
  lemma EmptyInputGivesNoItems(st: State, filenames: seq<string>, o: Oracles, c: Codec)
    ensures ProcessFiles(st, Zip([], filenames), o, c) == BatchRun([], st)
  {
  }

  /** One output per pair, carrying the pair's filename; extra bytes or names are ignored. */
  lemma OneOutputPerPair(st: State, files: seq<seq<byte>>, filenames: seq<string>, o: Oracles, c: Codec)
    ensures var batch := ProcessFiles(st, Zip(files, filenames), o, c);
      && |batch.outputs| == (if |files| <= |filenames| then |files| else |filenames|)
      && forall i :: 0 <= i < |batch.outputs| ==>
           batch.outputs[i].filename == filenames[i] && batch.outputs[i].numFaces == |batch.outputs[i].results|
  {
    OutputsMatchFiles(st, Zip(files, filenames), o, c);
  }
}
