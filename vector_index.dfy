/**
 * The persisted FAISS index as the recognition service sees it: an
 * append-only sequence of embedding vectors, stored whole in one file.
 */
module VectorIndex {
  import opened Wrappers

  /** An embedding; FAISS stores 32-bit floats, modelled here as reals. */
  type Vector = seq<real>

  /** Inner product, the similarity an inner-product FAISS index reports. */
  function Dot(u: Vector, v: Vector): real
    decreases |u|
  {
    if |u| == 0 || |v| == 0 then 0.0 else u[0] * v[0] + Dot(u[1..], v[1..])
  }

  /** `load_or_create_index` raises `FileNotFoundError`. */
  datatype LoadError = IndexNotFound

  /** The file at `FAISS_INDEX_PATH`: the entries last written, or `None` when it does not exist. */
  class IndexFile {
    var contents: Option<seq<Vector>>

    constructor (contents: Option<seq<Vector>>)
      ensures this.contents == contents
    {
      this.contents := contents;
    }
  }

  /**
   * `load_or_create_index`: despite its name it never creates an index; a
   * missing file is an error and an existing one is read back unchanged.
   */
  function LoadOrCreateIndex(file: IndexFile): (r: Result<seq<Vector>, LoadError>)
    reads file
    ensures r.Failure? <==> file.contents.None?
    ensures r.Success? ==> file.contents == Some(r.value)
  {
    match file.contents
    case None => Failure(IndexNotFound)
    case Some(entries) => Success(entries)
  }
}
