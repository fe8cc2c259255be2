/** The response shapes of `models.py`, as plain values. */
module Models {
  /** `RecognizeItem`: what the response keeps of one face result. */
  datatype RecognizeItem = RecognizeItem(isReturning: bool, similarity: real)

  /** `RecognizePerImage`: the outcome for one uploaded file. */
  datatype RecognizePerImage = RecognizePerImage(filename: string, numFaces: nat, results: seq<RecognizeItem>)

  /** `RecognizeBatchResponse`: one entry per uploaded file. */
  datatype RecognizeBatchResponse = RecognizeBatchResponse(items: seq<RecognizePerImage>)
}
