/**
  `init_pinecone`: make sure the configured vector index exists, creating it
  with dimension 1536 and the cosine metric only when no index of that name
  is listed. The index service is external state, modelled as a map from
  index names to their configurations.
*/
module VectorIndex {
  import opened Wrappers

  datatype DistanceMetric = Cosine | Euclidean | DotProduct

  /** The configuration an index was created with: `ServerlessSpec(cloud, region)` included. */
  datatype IndexConfig = IndexConfig(dimension: nat, metric: DistanceMetric, cloud: string, region: string)

  /** Dimension of the embedding vectors the index stores. */
  const EmbeddingDimension: nat := 1536

  /** The configuration `init_pinecone` creates the index with, in the given region. */
  function DefaultConfig(region: string): IndexConfig
  {
    IndexConfig(EmbeddingDimension, Cosine, "aws", region)
  }

  /**
    The index map after `init_pinecone` succeeds: an absent name gets the
    default configuration; a present one, whatever its configuration, is
    left as it is.
  */
  function EnsureIndex(indexes: map<string, IndexConfig>, name: string, region: string)
    : (r: map<string, IndexConfig>)
    ensures name in r
    ensures name in indexes ==> r == indexes
    ensures name !in indexes ==> r[name] == DefaultConfig(region)
    ensures r.Keys == indexes.Keys + {name}
    ensures forall n :: n in indexes ==> r[n] == indexes[n]
  {
    if name in indexes then indexes else indexes[name := DefaultConfig(region)]
  }

  /** Ensuring twice is ensuring once, even with another region the second time. */
  lemma EnsureIndexIdempotent(indexes: map<string, IndexConfig>, name: string, region1: string, region2: string)
    ensures EnsureIndex(EnsureIndex(indexes, name, region1), name, region2) == EnsureIndex(indexes, name, region1)
  {
  }

  /**
    A present index whose dimension or metric differs from 1536/cosine is
    kept as it is: the mismatch goes unnoticed.
  */
  lemma MismatchUndetected(indexes: map<string, IndexConfig>, name: string, region: string)
    requires name in indexes
    requires indexes[name].dimension != EmbeddingDimension || indexes[name].metric != Cosine
    ensures EnsureIndex(indexes, name, region)[name] != DefaultConfig(region)
  {
  }

  /** The vector-index service, whose set of indexes changes in place. */
  class IndexService {
    var indexes: map<string, IndexConfig>

    constructor (existing: map<string, IndexConfig>)
      ensures indexes == existing
    {
      indexes := existing;
    }

    /** `list_indexes().names()`. */
    function Names(): (names: set<string>)
      reads this
    {
      indexes.Keys
    }

    /**
      `create_index(name, dimension, metric, spec)`. `outcome` is the
      service's answer to a request for a new name; a name that already
      exists is refused. On failure nothing is created.
    */
    method CreateIndex(name: string, config: IndexConfig, outcome: Outcome) returns (r: Outcome)
      modifies this
      ensures name in old(indexes) ==> r.Fail?
      ensures name !in old(indexes) ==> r == outcome
      ensures r.Pass? ==> indexes == old(indexes)[name := config]
      ensures r.Fail? ==> indexes == old(indexes)
    {
      if name in indexes {
        r := Fail("ALREADY_EXISTS: index " + name);
      } else {
        if outcome.Pass? {
          indexes := indexes[name := config];
        }
        r := outcome;
      }
    }
  }

  /**
    `init_pinecone()`. `create` is the outcome the service would give to the
    creation request; a failure there propagates to the caller.
  */
  method InitPinecone(pc: IndexService, indexName: string, region: string, create: Outcome) returns (r: Outcome)
    modifies pc
    ensures indexName in old(pc.indexes) ==> r == Pass && pc.indexes == old(pc.indexes)
    ensures indexName !in old(pc.indexes) ==> r == create
    ensures r.Pass? ==> pc.indexes == EnsureIndex(old(pc.indexes), indexName, region)
    ensures r.Fail? ==> pc.indexes == old(pc.indexes)
  {
    if indexName !in pc.Names() {
      r := pc.CreateIndex(indexName, DefaultConfig(region), create);
    } else {
      r := Pass;
    }
  }
}
