/**
 * `RecognitionService`: the match-or-enroll engine. For every face crop of an
 * image, in order, it embeds the crop, looks up the nearest enrolled vector
 * (or uses the sentinel similarity 0.0 and rank -1 on an empty index) and
 * either reports a returning customer or saves the crop, appends the
 * embedding and rewrites the persisted index.
 */
module Services {
  import opened Wrappers
  import opened FaceFilter
  import opened VectorIndex

  /** `utils.THRESHOLD`: a similarity strictly above it means "same person". */
  const Threshold: real := 0.7

  /** The top hit `(D[0][0], I[0][0])` of `index.search(emb, k=1)`. */
  datatype Hit = Hit(score: real, rank: int)

  /**
   * The collaborators the service calls but that are not modelled: the face
   * detector, the embedder (temporary file, `DeepFace.represent`,
   * `faiss.normalize_L2`; `None` when it raises), FAISS search on a non-empty
   * index, the artifact saver (`None` when it raises) and whether
   * `faiss.write_index` succeeds for the given entries.
   */
  datatype Oracles = Oracles(
    detect: Image -> seq<Detection>,
    embed: Crop -> Option<Vector>,
    search: (seq<Vector>, Vector) -> Hit,
    saveFace: Crop -> Option<string>,
    writeSucceeds: seq<Vector> -> bool)

  /** One entry of the list `recognize_image_path` returns. */
  datatype FaceResult = FaceResult(isReturning: bool, similarity: real, index: int, savedPath: Option<string>)

  /** The exceptions that escape `recognize_image_path`. */
  datatype Error = CouldNotLoadImage | EmbeddingFailed | SaveFaceFailed | IndexWriteFailed

  /** The in-memory index and the contents of the index file. */
  datatype State = State(index: seq<Vector>, persisted: Option<seq<Vector>>)

  /** The outcome of handling one face: a result, or an exception, with the state it leaves. */
  datatype Step = Done(result: FaceResult, after: State) | Raised(error: Error, after: State)

  /** The results gathered before the run stopped, the exception that stopped it, and the final state. */
  datatype Run = Run(results: seq<FaceResult>, error: Option<Error>, after: State)

  datatype ImageRun = ImageRun(result: Result<seq<FaceResult>, Error>, after: State)

  /** The similarity and rank a face is judged by: the sentinel on an empty index, else the top hit. */
  function Nearest(index: seq<Vector>, emb: Vector, o: Oracles): (hit: Hit)
    ensures |index| == 0 ==> hit.score == 0.0 && hit.rank == -1
    ensures |index| > 0 ==> hit == o.search(index, emb)
    ensures RankInRange(o.search) ==> (hit.rank == -1 <==> |index| == 0) && -1 <= hit.rank < |index|
  {
    if |index| == 0 then Hit(0.0, -1) else o.search(index, emb)
  }

  /**
   * One iteration of the loop of `recognize_image_path`: a face is returning
   * exactly when its similarity is above the threshold, and then nothing
   * changes; a new face is saved before its embedding is appended at the end
   * of the index, and the grown index is what gets persisted.
   */
  function RecognizeFace(st: State, crop: Crop, o: Oracles): (step: Step)
    ensures step.Done? ==> (step.result.isReturning <==> step.result.similarity > Threshold)
    ensures step.Done? && step.result.isReturning ==> step.after == st && step.result.savedPath.None?
    ensures step.Done? && !step.result.isReturning ==>
      && o.embed(crop).Some? && o.saveFace(crop).Some?
      && step.result.savedPath == o.saveFace(crop)
      && step.after.index == st.index + [o.embed(crop).value]
      && step.after.persisted == Some(step.after.index)
    ensures step.Raised? ==> step.error != CouldNotLoadImage && step.after.persisted == st.persisted
    ensures step.Raised? && step.error != IndexWriteFailed ==> step.after == st
    ensures step.Raised? && step.error == IndexWriteFailed ==>
      o.embed(crop).Some? && step.after.index == st.index + [o.embed(crop).value]
    ensures |st.index| == 0 && step.Done? ==>
      !step.result.isReturning && step.result.similarity == 0.0 && step.result.index == -1
    ensures RankInRange(o.search) && step.Done? ==>
      && (step.result.index == -1 <==> |st.index| == 0)
      && -1 <= step.result.index < |st.index|
    ensures o.embed(crop).None? ==> step == Raised(EmbeddingFailed, st)
    ensures o.embed(crop).Some? ==>
      var emb := o.embed(crop).value;
      var hit := Nearest(st.index, emb, o);
      && (step.Done? ==> step.result.similarity == hit.score && step.result.index == hit.rank)
      && (hit.score > Threshold ==> step == Done(FaceResult(true, hit.score, hit.rank, None), st))
      && (hit.score <= Threshold && o.saveFace(crop).None? ==> step == Raised(SaveFaceFailed, st))
      && (hit.score <= Threshold && o.saveFace(crop).Some? && o.writeSucceeds(st.index + [emb]) ==>
            step.Done? && !step.result.isReturning)
      && (hit.score <= Threshold && o.saveFace(crop).Some? && !o.writeSucceeds(st.index + [emb]) ==>
            step == Raised(IndexWriteFailed, State(st.index + [emb], st.persisted)))
  {
    match o.embed(crop)
    case None => Raised(EmbeddingFailed, st)
    case Some(emb) =>
      var hit := Nearest(st.index, emb, o);
      if hit.score > Threshold then Done(FaceResult(true, hit.score, hit.rank, None), st)
      else
        match o.saveFace(crop)
        case None => Raised(SaveFaceFailed, st)
        case Some(path) =>
          var grown := st.index + [emb];
          if o.writeSucceeds(grown) then Done(FaceResult(false, hit.score, hit.rank, Some(path)), State(grown, Some(grown)))
          else Raised(IndexWriteFailed, State(grown, st.persisted))
  }

  /** Every result is classified by the threshold and carries a saved path exactly when it is new. */
  ghost predicate WellClassified(rs: seq<FaceResult>) {
    forall k :: 0 <= k < |rs| ==>
      && (rs[k].isReturning <==> rs[k].similarity > Threshold)
      && (rs[k].isReturning <==> rs[k].savedPath.None?)
  }

  /**
   * The loop of `recognize_image_path` over the crops, stopping at the first
   * exception: one result per crop handled, all of them when nothing was raised.
   */
  function RecognizeFaces(st: State, crops: seq<Crop>, o: Oracles): (run: Run)
    ensures |run.results| <= |crops|
    ensures run.error.None? <==> |run.results| == |crops|
    ensures WellClassified(run.results)
    ensures run.error != Some(CouldNotLoadImage)
    decreases |crops|
  {
    if |crops| == 0 then Run([], None, st)
    else
      match RecognizeFace(st, crops[0], o)
      case Raised(e, st1) => Run([], Some(e), st1)
      case Done(res, st1) =>
        var rest := RecognizeFaces(st1, crops[1..], o);
        Run([res] + rest.results, rest.error, rest.after)
  }

  /** `run` with `done` prepended to its results. */
  function Prefixed(done: seq<FaceResult>, run: Run): Run {
    Run(done + run.results, run.error, run.after)
  }

  /** The crops `detect_faces_and_crop(image_path)` yields with its default parameters. */
  function FaceCrops(img: Image, o: Oracles): seq<Crop> {
    Candidates(o.detect(img), img, DefaultEdgeMarginRatio, DefaultProfileThreshold)
  }

  /** `recognize_image_path` on a file that `cv2.imread` reads as `img`. */
  function RecognizeImage(st: State, img: Option<Image>, o: Oracles): (r: ImageRun)
    ensures img.None? ==> r == ImageRun(Failure(CouldNotLoadImage), st)
    ensures img.Some? ==>
      var run := RecognizeFaces(st, FaceCrops(img.value, o), o);
      && r.after == run.after
      && (r.result.Success? <==> run.error.None?)
      && (r.result.Success? ==> r.result.value == run.results && |r.result.value| == |FaceCrops(img.value, o)|)
      && (r.result.Failure? ==> Some(r.result.error) == run.error && r.result.error != CouldNotLoadImage)
  {
    match img
    case None => ImageRun(Failure(CouldNotLoadImage), st)
    case Some(image) =>
      var run := RecognizeFaces(st, FaceCrops(image, o), o);
      ImageRun(if run.error.Some? then Failure(run.error.value) else Success(run.results), run.after)
  }

  /** The number of results classified new. */
  function CountNew(rs: seq<FaceResult>): nat
    decreases |rs|
  {
    if |rs| == 0 then 0 else (if rs[0].isReturning then 0 else 1) + CountNew(rs[1..])
  }

  /** The search returns a rank that exists in the (non-empty) index. */
  ghost predicate RankInRange(search: (seq<Vector>, Vector) -> Hit) {
    forall index: seq<Vector>, q: Vector {:trigger search(index, q)} ::
      |index| > 0 ==> 0 <= search(index, q).rank < |index|
  }

  /** The search is an exact inner-product nearest-neighbour search (ties broken anyhow). */
  ghost predicate ExactSearch(search: (seq<Vector>, Vector) -> Hit) {
    forall index: seq<Vector>, q: Vector {:trigger search(index, q)} ::
      |index| > 0 ==>
        && 0 <= search(index, q).rank < |index|
        && search(index, q).score == Dot(q, index[search(index, q).rank])
        && forall j :: 0 <= j < |index| ==> Dot(q, index[j]) <= search(index, q).score
  }

  /** One step of `RecognizeFaces` over the suffix `crops[i..]`. */
  lemma RecognizeFacesUnfold(st: State, crops: seq<Crop>, i: nat, o: Oracles)
    requires i < |crops|
    ensures RecognizeFaces(st, crops[i..], o) ==
      match RecognizeFace(st, crops[i], o)
      case Raised(e, st1) => Run([], Some(e), st1)
      case Done(res, st1) => Prefixed([res], RecognizeFaces(st1, crops[i + 1..], o))
  {
    assert crops[i..][0] == crops[i] && crops[i..][1..] == crops[i + 1..];
  }

  /** How far the in-memory index ran ahead of the file when the run stopped: one entry after a failed write. */
  function Unsaved(run: Run): nat {
    if run.error == Some(IndexWriteFailed) then 1 else 0
  }

  /** Running over `a + b` is running over `a` and, if nothing was raised, continuing over `b` from where it left off. */
  lemma {:induction false} RecognizeFacesSplit(st: State, a: seq<Crop>, b: seq<Crop>, o: Oracles)
    ensures RecognizeFaces(st, a + b, o) ==
      var first := RecognizeFaces(st, a, o);
      if first.error.Some? then first else Prefixed(first.results, RecognizeFaces(first.after, b, o))
    decreases |a|
  {
    if |a| == 0 {
      assert a + b == b;
    } else {
      assert (a + b)[0] == a[0] && (a + b)[1..] == a[1..] + b;
      match RecognizeFace(st, a[0], o)
      case Raised(_, _) =>
      case Done(res, st1) =>
        RecognizeFacesSplit(st1, a[1..], b, o);
        var rest := RecognizeFaces(st1, a[1..], o);
        if rest.error.None? {
          var tail := RecognizeFaces(rest.after, b, o);
          assert [res] + (rest.results + tail.results) == ([res] + rest.results) + tail.results;
        }
    }
  }

  /**
   * The index only grows at its end: it gains one entry per new face, plus
   * the entry of a face whose index write failed; the file holds the index as
   * of the last successful enrollment, and is untouched when nobody was enrolled.
   */
  lemma {:induction false} IndexIsAppendOnly(st: State, crops: seq<Crop>, o: Oracles)
    ensures var run := RecognizeFaces(st, crops, o);
      && st.index <= run.after.index
      && |run.after.index| == |st.index| + CountNew(run.results) + Unsaved(run)
      && (CountNew(run.results) == 0 ==> run.after.persisted == st.persisted)
      && (CountNew(run.results) > 0 ==> run.after.persisted == Some(run.after.index[..|run.after.index| - Unsaved(run)]))
    decreases |crops|
  {
    if |crops| > 0 {
      match RecognizeFace(st, crops[0], o)
      case Raised(e, st1) =>
        assert RecognizeFaces(st, crops, o) == Run([], Some(e), st1);
      case Done(res, st1) =>
        IndexIsAppendOnly(st1, crops[1..], o);
        var rest := RecognizeFaces(st1, crops[1..], o);
        var run := RecognizeFaces(st, crops, o);
        assert run.results == [res] + rest.results;
        assert run.results[1..] == rest.results;
        assert Unsaved(run) == Unsaved(rest);
        assert CountNew(run.results) == (if res.isReturning then 0 else 1) + CountNew(rest.results);
        if !res.isReturning {
          assert st1.index == st.index + [o.embed(crops[0]).value];
          if CountNew(rest.results) == 0 {
            assert rest.after.index[..|rest.after.index| - Unsaved(rest)] == st1.index;
          }
        }
    }
  }

  /** When nothing is raised, the index ends with one more entry per new face and the file matches it once anyone was enrolled. */
  lemma SuccessfulRunPersistsIndex(st: State, crops: seq<Crop>, o: Oracles)
    requires RecognizeFaces(st, crops, o).error.None?
    ensures var run := RecognizeFaces(st, crops, o);
      && |run.results| == |crops|
      && |run.after.index| == |st.index| + CountNew(run.results)
      && run.after.persisted == (if CountNew(run.results) == 0 then st.persisted else Some(run.after.index))
  {
    IndexIsAppendOnly(st, crops, o);
    var run := RecognizeFaces(st, crops, o);
    assert run.after.index[..|run.after.index|] == run.after.index;
  }

  /**
   * Faces are handled one after another: face `k` is judged against the index
   * as the faces before it left it, which holds every enrollment they made.
   */
  lemma FaceSeesEarlierEnrollments(st: State, crops: seq<Crop>, o: Oracles, k: nat)
    requires k < |RecognizeFaces(st, crops, o).results|
    ensures var run := RecognizeFaces(st, crops, o);
      var before := RecognizeFaces(st, crops[..k], o);
      && before.error.None?
      && before.results == run.results[..k]
      && st.index <= before.after.index
      && |before.after.index| == |st.index| + CountNew(run.results[..k])
      && RecognizeFace(before.after, crops[k], o).Done?
      && RecognizeFace(before.after, crops[k], o).result == run.results[k]
  {
    var run := RecognizeFaces(st, crops, o);
    var before := RecognizeFaces(st, crops[..k], o);
    assert crops == crops[..k] + crops[k..];
    RecognizeFacesSplit(st, crops[..k], crops[k..], o);
    IndexIsAppendOnly(st, crops[..k], o);
    assert before.error.None?;
    var rest := RecognizeFaces(before.after, crops[k..], o);
    assert run.results == before.results + rest.results;
    assert run.results[..k] == before.results;
    assert crops[k..][0] == crops[k];
    assert run.results[k] == rest.results[0];
  }

  /**
   * The reported `index` is a rank of the index the face was judged against,
   * or -1 when that index was empty; for a new face it is never the rank its
   * own embedding is appended at.
   */
  lemma ReportedRankInRange(st: State, crops: seq<Crop>, o: Oracles, k: nat)
    requires RankInRange(o.search)
    requires k < |RecognizeFaces(st, crops, o).results|
    ensures var run := RecognizeFaces(st, crops, o);
      var size := |st.index| + CountNew(run.results[..k]);
      && (run.results[k].index == -1 <==> size == 0)
      && -1 <= run.results[k].index < size
  {
    FaceSeesEarlierEnrollments(st, crops, o, k);
  }

  /**
   * The same face submitted again right after it was handled (the embedder
   * yields the same unit vector, the search is exact, no enrolled vector
   * scores above 1.0 against it) is returning, and a face that was just
   * enrolled matches itself with similarity 1.0.
   */
  lemma SameFaceTwiceIsReturning(st: State, crop: Crop, o: Oracles)
    requires ExactSearch(o.search)
    requires o.embed(crop).Some? && Dot(o.embed(crop).value, o.embed(crop).value) == 1.0
    requires forall j :: 0 <= j < |st.index| ==> Dot(o.embed(crop).value, st.index[j]) <= 1.0
    requires RecognizeFace(st, crop, o).Done?
    ensures var first := RecognizeFace(st, crop, o);
      var second := RecognizeFace(first.after, crop, o);
      && second.Done? && second.result.isReturning && second.after == first.after
      && (!first.result.isReturning ==> second.result.similarity == 1.0)
  {
    var e := o.embed(crop).value;
    var first := RecognizeFace(st, crop, o);
    if !first.result.isReturning {
      var grown := first.after.index;
      assert grown == st.index + [e];
      var hit := o.search(grown, e);
      assert grown[|st.index|] == e;
      assert Dot(e, grown[|st.index|]) <= hit.score;
    }
  }

  /**
   * Two crops of the same novel person in one image: the first is enrolled,
   * and the second is returning, matched with similarity 1.0 to the rank the
   * first was appended at.
   */
  lemma SameNovelFaceTwiceInOneImage(st: State, c1: Crop, c2: Crop, o: Oracles)
    requires ExactSearch(o.search)
    requires o.embed(c1).Some? && o.embed(c2) == o.embed(c1)
    requires Dot(o.embed(c1).value, o.embed(c1).value) == 1.0
    requires forall j :: 0 <= j < |st.index| ==> Dot(o.embed(c1).value, st.index[j]) <= Threshold
    requires o.saveFace(c1).Some? && o.writeSucceeds(st.index + [o.embed(c1).value])
    ensures var run := RecognizeFaces(st, [c1, c2], o);
      && run.error.None? && |run.results| == 2
      && !run.results[0].isReturning && run.results[1].isReturning
      && run.results[1].similarity == 1.0 && run.results[1].index == |st.index|
      && run.after.index == st.index + [o.embed(c1).value]
  {
    var e := o.embed(c1).value;
    var first := RecognizeFace(st, c1, o);
    if |st.index| > 0 {
      var hit := o.search(st.index, e);
      assert hit.score == Dot(e, st.index[hit.rank]);
    }
    assert first.Done? && !first.result.isReturning;
    var grown := first.after.index;
    assert grown == st.index + [e];
    var hit := o.search(grown, e);
    assert grown[|st.index|] == e;
    assert Dot(e, grown[|st.index|]) <= hit.score;
    assert hit.score == Dot(e, grown[hit.rank]);
    assert hit.rank == |st.index|;
    var second := RecognizeFace(first.after, c2, o);
    assert second == Done(FaceResult(true, 1.0, |st.index|, None), first.after);
    assert [c1, c2][0] == c1 && [c1, c2][1..] == [c2];
    assert [c2][0] == c2 && [c2][1..] == [];
    assert RecognizeFaces(first.after, [c2], o) == Run([second.result], None, first.after);
  }

  /**
   * The service as shipped: the artifact saver it calls does not exist, so
   * every "new" decision raises. Then nothing is ever enrolled, every result
   * is returning and no index write is attempted.
   */
  lemma {:induction false} ShippedCodeNeverEnrolls(st: State, crops: seq<Crop>, o: Oracles)
    requires forall c :: o.saveFace(c) == None
    ensures var run := RecognizeFaces(st, crops, o);
      && run.after == st
      && (forall k :: 0 <= k < |run.results| ==> run.results[k].isReturning)
      && run.error != Some(IndexWriteFailed)
  {
    if |crops| > 0 {
      match RecognizeFace(st, crops[0], o)
      case Raised(_, _) =>
      case Done(res, st1) =>
        ShippedCodeNeverEnrolls(st1, crops[1..], o);
        var rest := RecognizeFaces(st1, crops[1..], o);
        assert RecognizeFaces(st, crops, o).results == [res] + rest.results;
    }
  }

  /** As shipped, an image with a face whose embedding succeeds fails on an empty index, and the index stays empty. */
  lemma ShippedCodeFailsOnFirstVisitor(st: State, img: Image, o: Oracles)
    requires forall c :: o.saveFace(c) == None
    requires |st.index| == 0
    requires |FaceCrops(img, o)| > 0 && o.embed(FaceCrops(img, o)[0]).Some?
    ensures RecognizeImage(st, Some(img), o) == ImageRun(Failure(SaveFaceFailed), st)
  {
  }

  class RecognitionService {
    var index: seq<Vector>
    const file: IndexFile

    function Current(): State
      reads this, file
    {
      State(index, file.contents)
    }

    constructor Loaded(file: IndexFile, entries: seq<Vector>)
      ensures this.file == file && index == entries
    {
      this.file := file;
      index := entries;
    }

    /** `RecognitionService()`: construction loads the index and fails when the file is missing. */
    static method Create(file: IndexFile) returns (r: Result<RecognitionService, LoadError>)
      ensures r.Failure? <==> file.contents.None?
      ensures r.Success? ==> fresh(r.value) && r.value.file == file && r.value.index == file.contents.value
    {
      var loaded := LoadOrCreateIndex(file);
      if loaded.Failure? {
        return Failure(loaded.error);
      }
      var service := new RecognitionService.Loaded(file, loaded.value);
      return Success(service);
    }

    /** `reload_index`: replaces the index by the file's entries and returns their count. */
    method ReloadIndex() returns (r: Result<nat, LoadError>)
      modifies this
      ensures file.contents.None? ==> r == Failure(IndexNotFound) && index == old(index)
      ensures file.contents.Some? ==> index == file.contents.value && r == Success(|index|)
    {
      var loaded := LoadOrCreateIndex(file);
      if loaded.Failure? {
        return Failure(loaded.error);
      }
      index := loaded.value;
      return Success(|index|);
    }

    /** The body of the loop of `recognize_image_path` for one crop: decide, then save, append and persist. */
    method RecognizeCrop(crop: Crop, o: Oracles) returns (r: Result<FaceResult, Error>)
      modifies this, file
      ensures var step := RecognizeFace(old(Current()), crop, o);
        && Current() == step.after
        && r == (if step.Done? then Success(step.result) else Failure(step.error))
    {
      var emb := o.embed(crop);
      if emb.None? {
        return Failure(EmbeddingFailed);
      }
      var similarity: real, matchIdx: int;
      if |index| == 0 {
        similarity, matchIdx := 0.0, -1;
      } else {
        var hit := o.search(index, emb.value);
        similarity, matchIdx := hit.score, hit.rank;
      }
      var isMatch := similarity > Threshold;
      if isMatch {
        return Success(FaceResult(true, similarity, matchIdx, None));
      }
      var newPath := o.saveFace(crop);
      if newPath.None? {
        return Failure(SaveFaceFailed);
      }
      index := index + [emb.value];
      if !o.writeSucceeds(index) {
        return Failure(IndexWriteFailed);
      }
      file.contents := Some(index);
      return Success(FaceResult(false, similarity, matchIdx, newPath));
    }

    /** `recognize_image_path`, with `img` what `cv2.imread` makes of the file. */
    method RecognizeImagePath(img: Option<Image>, o: Oracles) returns (r: Result<seq<FaceResult>, Error>)
      modifies this, file
      ensures var run := RecognizeImage(old(Current()), img, o);
        r == run.result && Current() == run.after
    {
      var detections := if img.Some? then o.detect(img.value) else [];
      var faces := DetectFacesAndCrop(detections, img, DefaultEdgeMarginRatio, DefaultProfileThreshold);
      if faces.Failure? {
        return Failure(CouldNotLoadImage);
      }
      var crops := faces.value;
      assert crops == FaceCrops(img.value, o);
      ghost var start := Current();
      assert start == old(Current());
      var results: seq<FaceResult> := [];
      for i := 0 to |crops|
        invariant RecognizeFaces(start, crops, o) == Prefixed(results, RecognizeFaces(Current(), crops[i..], o))
      {
        ghost var done, before := results, Current();
        RecognizeFacesUnfold(before, crops, i, o);
        var face := RecognizeCrop(crops[i], o);
        if face.Failure? {
          assert RecognizeFaces(before, crops[i..], o) == Run([], Some(face.error), Current());
          return Failure(face.error);
        }
        ghost var rest := RecognizeFaces(Current(), crops[i + 1..], o);
        assert RecognizeFaces(before, crops[i..], o) == Prefixed([face.value], rest);
        results := results + [face.value];
        assert done + ([face.value] + rest.results) == results + rest.results;
      }
      assert crops[|crops|..] == [];
      assert RecognizeFaces(start, crops, o) == Run(results, None, Current());
      return Success(results);
    }
  }

  /** The class attribute `RecognitionService._instance` and the index file it loads from. */
  class ServiceSlot {
    var instance: RecognitionService?
    const file: IndexFile

    ghost predicate Valid()
      reads this, instance
    {
      instance != null ==> instance.file == file
    }

    /** The state of the service `instance()` hands out: the existing one, or a fresh load of the file; `None` when that load fails. */
    ghost function Started(): Option<State>
      requires Valid()
      reads this, instance, file
    {
      if instance != null then Some(instance.Current())
      else if file.contents.Some? then Some(State(file.contents.value, file.contents))
      else None
    }

    constructor (file: IndexFile)
      ensures Valid() && instance == null && this.file == file
    {
      this.file := file;
      instance := null;
    }

    /** `RecognitionService.instance()`: creates the service on first use, then always returns it. */
    method Instance() returns (r: Result<RecognitionService, LoadError>)
      requires Valid()
      modifies this
      ensures Valid()
      ensures old(instance) != null ==> r == Success(old(instance)) && instance == old(instance)
      ensures old(instance) == null ==> (r.Failure? <==> file.contents.None?)
      ensures old(instance) == null && r.Failure? ==> instance == null
      ensures old(instance) == null && r.Success? ==> fresh(r.value)
      ensures r.Failure? <==> old(Started()).None?
      ensures r.Success? ==> instance == r.value && r.value.file == file && Some(r.value.Current()) == old(Started())
    {
      if instance == null {
        var created := RecognitionService.Create(file);
        if created.Failure? {
          return Failure(created.error);
        }
        instance := created.value;
      }
      return Success(instance);
    }
  }
}
