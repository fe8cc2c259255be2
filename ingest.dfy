/**
 * The per-file pipeline shared by the batch drivers (`recognize_batch` in
 * `api.py` and `backend/api.py`, and `process_images_directly` in
 * `streamlit_app.py`): files are handled one after another against the same
 * service state, a file that cannot be handled yields zero faces, and every
 * file yields exactly one output, in order.
 */
module Ingest {
  import opened Wrappers
  import opened FaceFilter
  import opened Services
  import opened Models

  type byte = bv8

  /** One uploaded file; a missing filename is the empty string. */
  datatype Upload = Upload(filename: string, data: seq<byte>)

  /**
   * The image codecs the drivers use: `cv2.imdecode` of the uploaded bytes,
   * and what `recognize_image_path` reads back (`cv2.imread`) after the
   * decoded image was written to a temporary file with `cv2.imwrite`. The
   * write is given the upload's filename, whose extension (or ".jpg") picks
   * the encoder; `None` when the write fails or the file does not read back.
   */
  datatype Codec = Codec(decode: seq<byte> -> Option<Image>, reread: (string, Image) -> Option<Image>)

  /** The output for one file and the service state it leaves. */
  datatype FileOutcome = FileOutcome(output: RecognizePerImage, after: State)

  /** The outputs for a list of files and the final service state. */
  datatype BatchRun = BatchRun(outputs: seq<RecognizePerImage>, after: State)

  /** `[RecognizeItem(**r) for r in results_raw]`: only `is_returning` and `similarity` are kept. */
  function ToItems(rs: seq<FaceResult>): (items: seq<RecognizeItem>)
    ensures |items| == |rs|
    ensures forall k :: 0 <= k < |rs| ==>
      items[k].isReturning == rs[k].isReturning && items[k].similarity == rs[k].similarity
    decreases |rs|
  {
    if |rs| == 0 then [] else [RecognizeItem(rs[0].isReturning, rs[0].similarity)] + ToItems(rs[1..])
  }

  /** A file that is not processed: zero faces and no results. */
  function Skipped(name: string): RecognizePerImage {
    RecognizePerImage(name, 0, [])
  }

  /**
   * The body of the per-file loop. A file with no name, no bytes or bytes
   * that do not decode is skipped without calling the service; an exception
   * from the service gives zero faces for this file, but whatever the service
   * enrolled before raising stays.
   */
  function ProcessFile(st: State, f: Upload, o: Oracles, c: Codec): (out: FileOutcome)
    ensures out.output.filename == f.filename
    ensures out.output.numFaces == |out.output.results|
    ensures forall k :: 0 <= k < |out.output.results| ==>
      (out.output.results[k].isReturning <==> out.output.results[k].similarity > Threshold)
    ensures f.filename == "" || |f.data| == 0 || c.decode(f.data).None? ==>
      out == FileOutcome(Skipped(f.filename), st)
  {
    if f.filename == "" then FileOutcome(Skipped(""), st)
    else if |f.data| == 0 then FileOutcome(Skipped(f.filename), st)
    else
      match c.decode(f.data)
      case None => FileOutcome(Skipped(f.filename), st)
      case Some(img) =>
        var run := RecognizeImage(st, c.reread(f.filename, img), o);
        match run.result
        case Failure(_) => FileOutcome(Skipped(f.filename), run.after)
        case Success(rs) =>
          var items := ToItems(rs);
          FileOutcome(RecognizePerImage(f.filename, |items|, items), run.after)
  }

  /** The per-file loop: one output per file, in file order, with the filename it was uploaded under. */
  function ProcessFiles(st: State, files: seq<Upload>, o: Oracles, c: Codec): (batch: BatchRun)
    ensures |batch.outputs| == |files|
    decreases |files|
  {
    if |files| == 0 then BatchRun([], st)
    else
      var first := ProcessFile(st, files[0], o, c);
      var rest := ProcessFiles(first.after, files[1..], o, c);
      BatchRun([first.output] + rest.outputs, rest.after)
  }

  /** The body of the drivers' loop over files, run by `service`. */
  method HandleUpload(service: RecognitionService, f: Upload, o: Oracles, c: Codec) returns (output: RecognizePerImage)
    modifies service, service.file
    ensures var out := ProcessFile(old(service.Current()), f, o, c);
      output == out.output && service.Current() == out.after
  {
    if f.filename == "" {
      return Skipped("");
    }
    if |f.data| == 0 {
      return Skipped(f.filename);
    }
    var img := c.decode(f.data);
    if img.None? {
      return Skipped(f.filename);
    }
    var raw := service.RecognizeImagePath(c.reread(f.filename, img.value), o);
    if raw.Failure? {
      return Skipped(f.filename);
    }
    var items := ToItems(raw.value);
    return RecognizePerImage(f.filename, |items|, items);
  }

  /** The drivers' loop: every file in turn, appending its output to `outputs`. */
  method HandleUploads(service: RecognitionService, files: seq<Upload>, o: Oracles, c: Codec)
      returns (outputs: seq<RecognizePerImage>)
    modifies service, service.file
    ensures var batch := ProcessFiles(old(service.Current()), files, o, c);
      outputs == batch.outputs && service.Current() == batch.after
  {
    ghost var start := service.Current();
    outputs := [];
    for i := 0 to |files|
      invariant ProcessFiles(start, files, o, c) == PrefixedBatch(outputs, ProcessFiles(service.Current(), files[i..], o, c))
    {
      ghost var done, before := outputs, service.Current();
      ProcessFilesUnfold(before, files, i, o, c);
      var output := HandleUpload(service, files[i], o, c);
      ghost var rest := ProcessFiles(service.Current(), files[i + 1..], o, c);
      assert ProcessFiles(before, files[i..], o, c) == PrefixedBatch([output], rest);
      outputs := outputs + [output];
      assert done + ([output] + rest.outputs) == outputs + rest.outputs;
    }
    assert files[|files|..] == [];
    assert ProcessFiles(start, files, o, c) == BatchRun(outputs, service.Current());
  }

  /** One step of `ProcessFiles` over the suffix `files[i..]`. */
  lemma ProcessFilesUnfold(st: State, files: seq<Upload>, i: nat, o: Oracles, c: Codec)
    requires i < |files|
    ensures ProcessFiles(st, files[i..], o, c) ==
      var first := ProcessFile(st, files[i], o, c);
      PrefixedBatch([first.output], ProcessFiles(first.after, files[i + 1..], o, c))
  {
    assert files[i..][0] == files[i] && files[i..][1..] == files[i + 1..];
  }

  /**
   * Output `i` carries the name file `i` was uploaded under, `num_faces`
   * equal to its number of results, and results classified by the threshold.
   */
  lemma {:induction false} OutputsMatchFiles(st: State, files: seq<Upload>, o: Oracles, c: Codec)
    ensures var batch := ProcessFiles(st, files, o, c);
      && (forall i :: 0 <= i < |files| ==>
            batch.outputs[i].filename == files[i].filename && batch.outputs[i].numFaces == |batch.outputs[i].results|)
      && (forall i, k :: 0 <= i < |files| && 0 <= k < |batch.outputs[i].results| ==>
            (batch.outputs[i].results[k].isReturning <==> batch.outputs[i].results[k].similarity > Threshold))
    decreases |files|
  {
    if |files| > 0 {
      var first := ProcessFile(st, files[0], o, c);
      OutputsMatchFiles(first.after, files[1..], o, c);
      var batch := ProcessFiles(st, files, o, c);
      assert batch.outputs[1..] == ProcessFiles(first.after, files[1..], o, c).outputs;
      assert forall i :: 1 <= i < |files| ==> files[i] == files[1..][i - 1];
    }
  }

  /** `batch` with `done` prepended to its outputs. */
  function PrefixedBatch(done: seq<RecognizePerImage>, batch: BatchRun): BatchRun {
    BatchRun(done + batch.outputs, batch.after)
  }

  /** Processing `a + b` is processing `a`, then `b` from the state `a` left. */
  lemma {:induction false} ProcessFilesSplit(st: State, a: seq<Upload>, b: seq<Upload>, o: Oracles, c: Codec)
    ensures ProcessFiles(st, a + b, o, c) ==
      var first := ProcessFiles(st, a, o, c);
      PrefixedBatch(first.outputs, ProcessFiles(first.after, b, o, c))
    decreases |a|
  {
    if |a| == 0 {
      assert a + b == b;
    } else {
      assert (a + b)[0] == a[0] && (a + b)[1..] == a[1..] + b;
      var first := ProcessFile(st, a[0], o, c);
      ProcessFilesSplit(first.after, a[1..], b, o, c);
      var rest := ProcessFiles(first.after, a[1..], o, c);
      var tail := ProcessFiles(rest.after, b, o, c);
      assert [first.output] + (rest.outputs + tail.outputs) == ([first.output] + rest.outputs) + tail.outputs;
    }
  }

  /**
   * Files are processed in order against one service: the output of file
   * `k` is what processing it gives in the state the files before it left,
   * which holds all their enrollments.
   */
  lemma LaterFilesSeeEarlierEnrollments(st: State, files: seq<Upload>, o: Oracles, c: Codec, k: nat)
    requires k < |files|
    ensures var before := ProcessFiles(st, files[..k], o, c);
      && ProcessFiles(st, files, o, c).outputs[..k] == before.outputs
      && ProcessFiles(st, files, o, c).outputs[k] == ProcessFile(before.after, files[k], o, c).output
  {
    assert files == files[..k] + files[k..];
    ProcessFilesSplit(st, files[..k], files[k..], o, c);
    assert files[k..][0] == files[k];
  }

  /** The service's index only grows over a batch, whatever fails along the way. */
  lemma {:induction false} BatchIndexIsAppendOnly(st: State, files: seq<Upload>, o: Oracles, c: Codec)
    ensures st.index <= ProcessFiles(st, files, o, c).after.index
    decreases |files|
  {
    if |files| > 0 {
      var first := ProcessFile(st, files[0], o, c);
      FileIndexIsAppendOnly(st, files[0], o, c);
      BatchIndexIsAppendOnly(first.after, files[1..], o, c);
    }
  }

  /** One file leaves the index extended at its end, also when the service raised. */
  lemma FileIndexIsAppendOnly(st: State, f: Upload, o: Oracles, c: Codec)
    ensures st.index <= ProcessFile(st, f, o, c).after.index
  {
    if f.filename != "" && |f.data| > 0 && c.decode(f.data).Some? {
      var img := c.reread(f.filename, c.decode(f.data).value);
      if img.Some? {
        IndexIsAppendOnly(st, FaceCrops(img.value, o), o);
      }
    }
  }

  /**
   * An exception from the service is isolated to its file: the file gets
   * zero faces, and the enrollments made before the exception (including an
   * appended entry whose index write failed) are kept, not rolled back.
   */
  lemma FailedFileKeepsEnrollments(st: State, f: Upload, img: Image, o: Oracles, c: Codec)
    requires f.filename != "" && |f.data| > 0 && c.decode(f.data) == Some(img)
    requires RecognizeImage(st, c.reread(f.filename, img), o).result.Failure?
    ensures var out := ProcessFile(st, f, o, c);
      && out.output == RecognizePerImage(f.filename, 0, [])
      && out.after == RecognizeImage(st, c.reread(f.filename, img), o).after
      && st.index <= out.after.index
  {
    FileIndexIsAppendOnly(st, f, o, c);
  }

  /** A file the service handled reports one item per face result, in order, with its class and similarity. */
  lemma HandledFileMirrorsResults(st: State, f: Upload, img: Image, o: Oracles, c: Codec)
    requires f.filename != "" && |f.data| > 0 && c.decode(f.data) == Some(img)
    requires RecognizeImage(st, c.reread(f.filename, img), o).result.Success?
    ensures var rs := RecognizeImage(st, c.reread(f.filename, img), o).result.value;
      var out := ProcessFile(st, f, o, c);
      && out.output.numFaces == |rs|
      && (forall k :: 0 <= k < |rs| ==>
            out.output.results[k] == RecognizeItem(rs[k].isReturning, rs[k].similarity))
      && out.after == RecognizeImage(st, c.reread(f.filename, img), o).after
  {
  }
}
