/** The stored records and the index record of internal/storage/vector.go. */
module Vectors {

  /** A vector as the store keeps it. Go's float32 components are modelled by reals: finite, no rounding. */
  datatype StoredVector = StoredVector(
    id: string,
    metadata: map<string, string>,
    timestamp: int,
    values: seq<real>)

  datatype VectorIndex = VectorIndex(
    name: string,
    dimension: int,
    metric: string,
    shardCount: int,
    replicaCount: int,
    options: map<string, string>)
  {
    /** The record passes the checks CreateIndex makes before it accepts a new index. */
    predicate Validates() {
      && dimension > 0
      && shardCount > 0
      && replicaCount >= 0
      && metric in {"cosine", "euclidean", "dot_product"}
    }
  }

  /** One hit of a search. The source also has a Distance field, which nothing ever sets. */
  datatype SearchResult = SearchResult(id: string, score: real, vector: StoredVector)
}
