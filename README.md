# Match-or-enroll face recognition, modelled in Dafny

This project models the core of a "recurring vs. new customer" recogniser.
An uploaded image goes through these steps:

1. A detector proposes face boxes.
2. A filter keeps the usable boxes. It drops degenerate boxes, boxes that cross an edge margin, empty slices and side profiles.
3. Each surviving crop is embedded and looked up in an append-only vector index (FAISS).
4. A similarity strictly above 0.7 makes the face a returning customer.
5. Any other face is new. Its crop is meant to be saved, its embedding appended to the index, and the grown index written back to its file. As shipped, the save call raises before anything is appended (see Findings); the model lets the saver succeed or fail.

Three batch drivers run every uploaded file through the service in order, and each file (in the Streamlit driver, each zipped (bytes, filename) pair) gets exactly one output once the service is available:
- the FastAPI endpoint `recognize_batch`, in `api.py` and in its byte-identical copy `backend/api.py`;
- the Streamlit function `process_images_directly`.

Modules (one per component; all files are verified together):

- `wrappers.dfy` — `Option` and `Result`.
- `face_filter.dfy` — `FaceFilter`, the filter of `utils.detect_faces_and_crop`. It has one predicate per box test and for the profile test (the empty-slice test is written inline), the specification `Candidates`, and the loop `DetectFacesAndCrop`, which is proved against it.
- `vector_index.dfy` — `VectorIndex`: vectors, inner product, the index file and `load_or_create_index`.
- `services.dfy` — `Services`, which models `RecognitionService`:
  - the per-face step `RecognizeFace`, the per-image run `RecognizeFaces` / `RecognizeImage`, and the lemmas about them;
  - the class `RecognitionService`, with the in-place index and methods proved against those functions;
  - `ServiceSlot`, the lazily filled class attribute `_instance`.
- `models.dfy` — `Models`, the response shapes of `models.py`.
- `ingest.dfy` — `Ingest`, the per-file pipeline that the three drivers share. It has the specification functions `ProcessFile` / `ProcessFiles`, the loop method `HandleUploads` and the lemmas about them.
- `api.dfy` — `Api.RecognizeBatch`: the 400 check, then the shared service, then the loop.
- `streamlit_app.dfy` — `StreamlitApp.ProcessImagesDirectly`: zip the inputs, no 400 check, and `None` when the service cannot be created.

What is not modelled is passed in as a parameter:
- the face detector, the embedder, the FAISS search, the artifact saver and the outcome of `faiss.write_index`, all gathered in `Services.Oracles`;
- `cv2.imdecode` and the temporary-file round trip, gathered in `Ingest.Codec`.

The code behaves as follows in these points, which are easy to misread:
- A zero eye distance gives ratio 1.0. The face is therefore rejected exactly when `1.0 > profile_threshold`, which includes the default 0.6. It is not rejected unconditionally.
- For a new face the reported `index` is the rank of the nearest entry, or -1. It is not the rank at which the face is enrolled.
- An embedding failure aborts the whole image rather than skipping one face. The drivers catch it and report zero faces for that file.
- The response items keep only `is_returning` and `similarity`. The saved path is dropped.
- No tie-breaking rule for the search is assumed.

## Model

| member | source | states |
|---|---|---|
| `FaceFilter.DetectFacesAndCrop` | utils.py:50-110 | an unreadable image raises; otherwise the loop's output is exactly `Candidates` of the detections |
| `FaceFilter.CandidatesAreAcceptedSubsequence` | utils.py:65-107 | the output is an order-preserving subsequence of the detections, no longer than the input; its positions are exactly those of the accepted detections, and each entry is that detection's crop |
| `FaceFilter.CandidatesAtAcceptedPositions` | utils.py:67-107 | output entry k is the crop of the k-th accepted detection; the positions increase |
| `FaceFilter.AcceptedPositionsComplete` | utils.py:67-107 | a detection is kept if and only if it passes every test |
| `FaceFilter.AcceptsMeansAllTestsPassed` | utils.py:68-105 | a kept detection has w, h > 0, lies off the edge margin, has a non-empty slice and passed the profile test; a non-degenerate box always has a facial area, so the profile test is never skipped for it |
| `FaceFilter.InteriorBoxCropsExactly` | utils.py:78-89 | with margin ratio r >= 0, a box that passes the size and edge tests lies inside the image, and the numpy slice is exactly the box |
| `FaceFilter.KeptBoxLiesInside` | utils.py:74-89 | with r >= 0, the detection behind every output crop has w, h > 0 and a box inside the image, and the crop is exactly that box |
| `FaceFilter.Degenerate` | utils.py:74 | the box has a non-positive width or height |
| `FaceFilter.NearEdge` | utils.py:78-83 | the box starts strictly inside the left or top margin of r times the width or height, or ends strictly beyond the right or bottom margin; with r >= 0, a box not near an edge lies inside the image |
| `FaceFilter.ProfileRejects` | utils.py:92-105 | the sqrt-free form of `asymmetry_ratio > profile_threshold`, so that a negative threshold rejects every detection, and rejecting coinciding eyes exactly when 1.0 > threshold; `ProfileTestIsRatioTest` proves it agrees with the ratio |
| `FaceFilter.Accepts` | utils.py:68-105 | a detection passes the size, edge, empty-slice and (for a non-empty facial area) profile tests, with missing keys read as 0 and missing landmarks as (0, 0); an accepted detection has a non-empty facial area, positive w and h and a non-empty slice |
| `FaceFilter.AsymmetryRatio` | utils.py:98-100 | the nose offset divided by the eye distance, non-negative, and 1.0 when the distance is not positive |
| `FaceFilter.CropOf` | utils.py:69-72 | the slice of the detection's box, with missing keys read as 0, as at line 87; it lies inside the image |
| `FaceFilter.CropAt` | utils.py:87 | the numpy slice `img[y:y+h, x:x+w]` stays inside the image, and is exactly the box when the box lies inside |
| `FaceFilter.Candidates` | utils.py:65-107 | the crops of the accepted detections in detection order: no more than the detections, each a non-empty slice of the image |
| `FaceFilter.SliceBound` | utils.py:87 | a Python slice bound is clamped into [0, n] and is unchanged when already in range |
| `FaceFilter.Abs` | utils.py:99 | the absolute value is non-negative and equals v or -v |
| `FaceFilter.RatioTestInSquares` | utils.py:98-101 | over reals, the square-based test equals `ratio > t`, with ratio 1.0 when the eye distance is 0 |
| `FaceFilter.ProfileTestIsRatioTest` | utils.py:98-105 | the sqrt-free profile test rejects exactly when the asymmetry ratio exceeds the threshold (strictly) |
| `FaceFilter.ZeroEyeDistanceRejected` | utils.py:100-101 | coinciding eyes are rejected if and only if 1.0 > threshold, so always at the default 0.6 |
| `FaceFilter.ProfileBoundaryExample` | utils.py:101-105 | ratio exactly 0.6 is kept at threshold 0.6; ratio 0.61 is rejected |
| `FaceFilter.EdgeMarginExample` | utils.py:78-85 | 1000x1000 image, r = 0.005: a box at x=4 is rejected, boxes at x=5 and x=6 are kept |
| `VectorIndex.LoadOrCreateIndex` | utils.py:24-32 | fails if and only if the index file is missing; otherwise returns the stored entries unchanged, and never creates an index |
| `Services.RecognizeFace` | services.py:36-67 | a failed embedding raises and changes nothing; the reported similarity and rank are the nearest hit (the search's top hit on a non-empty index); a hit above 0.7 gives a returning result and no change; otherwise a failed save raises and changes nothing, a successful save and write give a new result, a failed write raises with the entry appended but not persisted; returning if and only if similarity > 0.7; new: the crop was saved, its embedding is appended at the end and the grown index is persisted; a failed save or embedding changes nothing; a failed write leaves the entry appended but unpersisted; an empty index gives 0.0, rank -1 and "new"; with a well-behaved search the rank lies in [0, size) or is -1 |
| `Services.Nearest` | services.py:38-44 | similarity 0.0 and rank -1 on an empty index, otherwise the search's top hit; with a well-behaved search the rank is -1 exactly on an empty index and otherwise a rank of the index |
| `Services.RecognizeImage` | services.py:29-73 | an unreadable image raises; otherwise the run over the image's crops: success with one result per crop exactly when no face raised, else the face's exception, with the state the run left in both cases |
| `Services.RecognizeFaces` | services.py:31-73 | at most one result per crop, all of them exactly when nothing was raised; every result is classified by the threshold and carries a saved path exactly when it is new |
| `Services.RecognizeFacesSplit` | services.py:33-67 | handling `a + b` is handling `a`, then `b` from the state `a` left (unless `a` raised) |
| `Services.IndexIsAppendOnly` | services.py:47-51 | the index only grows at its end, by one entry per new face (plus one after a failed write); it is persisted as of the last successful enrollment, and untouched when nobody was enrolled |
| `Services.SuccessfulRunPersistsIndex` | services.py:50-51 | when nothing is raised: one result per crop, size = old size + number of new faces, and the file equals the in-memory index once anyone was enrolled |
| `Services.FaceSeesEarlierEnrollments` | services.py:33-51 | face k is decided against the index left by faces 0..k-1, which holds all their enrollments |
| `Services.ReportedRankInRange` | services.py:38-44 | with a well-behaved search, face k reports -1 exactly when the index it saw was empty, and otherwise a rank below that index's size, never its own new rank |
| `Services.SameFaceTwiceIsReturning` | services.py:38-67 | with an exact search and unit embeddings, the same face handled again is returning, and a face just enrolled matches itself with similarity 1.0 |
| `Services.SameNovelFaceTwiceInOneImage` | services.py:33-67 | two crops of one novel person in one image: the first is new, the second returning with similarity 1.0 at the first one's appended rank |
| `Services.ShippedCodeNeverEnrolls` | services.py:47-51 | as shipped (the saver always raises), the state never changes, every result is returning and no write is attempted |
| `Services.ShippedCodeFailsOnFirstVisitor` | services.py:38-49 | as shipped, on an empty index an image whose first face embeds fails with the save error and leaves the index empty |
| `Services.RecognitionService.Create` | services.py:15-16 | construction fails if and only if the index file is missing; otherwise the fresh service holds the stored entries |
| `Services.RecognitionService.ReloadIndex` | services.py:25-27 | reloads the index from the file and returns its entry count; a missing file raises and leaves the index unchanged |
| `Services.RecognitionService.RecognizeCrop` | services.py:34-67 | one loop iteration over the in-place index and file, equal to `RecognizeFace` on the old state |
| `Services.RecognitionService.RecognizeImagePath` | services.py:29-73 | result and new index/file state are exactly `RecognizeImage` of the old state |
| `Services.ServiceSlot.Instance` | services.py:18-23 | creates the service on first use, fails if and only if the file is missing, and after that always returns the same object |
| `Ingest.ToItems` | api.py:93 | one item per face result, in order, keeping its class and similarity |
| `Ingest.ProcessFile` | api.py:62-98 | output carries the upload's filename and num_faces = number of results; no name, no bytes or undecodable bytes give zero faces and leave the service untouched |
| `Ingest.ProcessFiles` | backend/api.py:62-98 | exactly one output per file |
| `Ingest.HandleUpload` | backend/api.py:63-98 | the per-file loop body over the live service equals `ProcessFile` on its state |
| `Ingest.HandleUploads` | api.py:60-94 | the loop's outputs and the service's final state equal `ProcessFiles` of the initial state |
| `Ingest.OutputsMatchFiles` | backend/api.py:62-94 | output i has file i's name and num_faces = number of its results, and every item is classified by the threshold |
| `Ingest.ProcessFilesSplit` | api.py:62-98 | processing `a + b` is processing `a`, then `b` from the state `a` left |
| `Ingest.LaterFilesSeeEarlierEnrollments` | api.py:59-92 | the output of file k is what it gives against the state left by files 0..k-1 |
| `Ingest.BatchIndexIsAppendOnly` | backend/api.py:59-98 | over a whole batch the index only grows at its end, whatever fails |
| `Ingest.FileIndexIsAppendOnly` | api.py:70-98 | one file leaves the index extended at its end, also when the service raised |
| `Ingest.FailedFileKeepsEnrollments` | api.py:96-98 | a file on which the service raises gets zero faces, and the enrollments made before the exception are kept |
| `Ingest.HandledFileMirrorsResults` | backend/api.py:92-94 | a handled file reports one item per service result, in order, with its class and similarity |
| `Api.Status` | api.py:56-59 | 400 exactly for an empty upload list; the service failing at line 59 is answered 500 |
| `Api.RecognizeBatch` | api.py:54-107 | an empty list is answered 400 before anything else, leaving the slot, the service and the index file unchanged; a missing index is answered 500 and the file stays missing; otherwise the response is exactly `ProcessFiles` over the files, from the service's state; a service already in the slot stays the same object |
| `StreamlitApp.Zip` | streamlit_app.py:48 | pairs up to the shorter list, element by element |
| `StreamlitApp.ProcessImagesDirectly` | streamlit_app.py:42-91 | `None` if and only if the service cannot be created, and then the index file stays missing; otherwise exactly `ProcessFiles` over the zipped pairs; a service already in the slot stays the same object |
| `StreamlitApp.EmptyInputGivesNoItems` | streamlit_app.py:46-48 | no input gives an empty item list, not an error |
| `StreamlitApp.OneOutputPerPair` | streamlit_app.py:48-78 | one output per (bytes, filename) pair, carrying the pair's filename and num_faces = number of its results |

## Left out

- Face detection (`DeepFace.extract_faces`), embedding (`DeepFace.represent`, `faiss.normalize_L2`), FAISS search and `faiss.write_index` are foreign code. They appear as the oracles in `Services.Oracles`. Search is only assumed well-behaved where a lemma says so (`RankInRange`, `ExactSearch`).
- `index.add` is not an oracle: it is modelled as appending the embedding at the end of the index (at rank = the previous `ntotal`), as a flat FAISS index does. `Services.IndexIsAppendOnly`, `Ingest.BatchIndexIsAppendOnly` and `Services.SameNovelFaceTwiceInOneImage` rest on this.
- Unit length of embeddings is not modelled. It is a premise (`Dot(e, e) == 1.0`) of the two self-match lemmas.
- `utils.save_new_customer_face` does not exist in `utils.py`. The saver is an oracle that may fail; see Findings.
- Floating point: coordinates are integers, and scores, ratios and thresholds are reals. The square root of the eye distance is avoided by comparing squares. `FaceFilter.ProfileTestIsRatioTest` relates this to the ratio for any `dist >= 0` whose square is the squared distance.
- Image I/O is not modelled: `cv2.imread`, `imwrite`, `imdecode`, temporary files, `os.remove` and `ensure_customer_dir_exists`. Images are shape-only values, decoding is `Ingest.Codec.decode`, and the write-then-read round trip is `Ingest.Codec.reread`, which is given the upload's filename because its extension picks the encoder.
- An exception raised by this I/O (`f.read()`, `mkstemp`, `imwrite`) is not modelled separately. Such an exception, caught per file, gives the same zero-face output as a service failure.
- A failed `faiss.write_index` is assumed to leave the previous file contents in place (`State(grown, st.persisted)` in `Services.RecognizeFace`). If the write truncates the file before failing, the file can be left damaged, and `Services.IndexIsAppendOnly`'s statement about the persisted index then does not hold for that file.
- Foreign inputs are assumed well-formed. A landmark key whose value is `None` raises `TypeError` in the source but reads as (0, 0) here, because the model does not tell it apart from a missing key. A detector failure (`DeepFace.extract_faces` raising) is not modelled: the `detect` oracle always returns a list.
- The FAISS index's own checks (dimension mismatch) are not modelled, and vector dimensions are not tracked.
- The double-checked singleton without a lock, and concurrent requests, are not modelled. Only sequential calls are.
- `print` and `st.error` logging are left out.
- The commented-out `/recognize` endpoint and `RecognizeResponse` are left out.
- UI code is left out: `display_results` and `main` in `streamlit_app.py`, and the frontend.
- App wiring is left out: `main.py` and `backend/main.py`.
- `Api.RecognizeBatch`: the exception from `RecognitionService.instance()` is modelled as an error answered with 500. The exact `IndexNotFound` message is not stated.

## Findings

| source | as written | input that shows it | evidently intended | confidence | as-written member | corrected member |
|---|---|---|---|---|---|---|
| services.py:49 | `utils.save_new_customer_face(face_img_bgr)` is called, but `utils.py` defines no such function, so every "new" decision raises `AttributeError` before `index.add` | an empty index and an image with one acceptable face: the face is new, the call raises, the image fails and nobody is ever enrolled | save the crop, append its embedding and persist the index, returning the saved path | not executed | `Services.ShippedCodeNeverEnrolls` | `Services.RecognizeFace` |
