/**
 * `Elastic` in `src/modules/elastic.py`: creating and deleting a named index
 * of the search store. The store is the set of index names that exist; the
 * connection, certificates and log lines are not modelled.
 */
module ElasticIndex {

  class Elastic {
    /** The names of the indices that exist in the search store. */
    var indices: set<string>

    constructor (existing: set<string>)
      ensures indices == existing
    {
      indices := existing;
    }

    /**
     * `create_index`: asks whether the index exists and creates it only when
     * it does not. Neither call is guarded: `existsRaises` says whether the
     * existence check raises, `createRaises` whether the create call raises
     * once it is made. A raise escapes to the caller (`raised`) and changes
     * nothing; otherwise the index exists afterwards, `created` says whether
     * this call made it, and no other name is touched.
     */
    method CreateIndex(indexName: string, existsRaises: bool, createRaises: bool)
      returns (created: bool, raised: bool)
      modifies this
      ensures raised <==> existsRaises || (indexName !in old(indices) && createRaises)
      ensures created <==> !raised && indexName !in old(indices)
      ensures raised ==> indices == old(indices)
      ensures !raised ==> indices == old(indices) + {indexName} && indexName in indices
    {
      created := false;
      raised := false;
      if existsRaises {
        raised := true;
      } else if indexName !in indices {
        if createRaises {
          raised := true;
        } else {
          indices := indices + {indexName};
          created := true;
        }
      }
    }

    /**
     * `delete_index`: the delete call raises when the index does not exist, and
     * may raise for any other reason (`fails` says whether it does); the
     * exception is caught and turned into `false`. On success the index is gone
     * and nothing else changed; on failure nothing changed.
     */
    method DeleteIndex(indexName: string, fails: bool) returns (deleted: bool)
      modifies this
      ensures deleted <==> indexName in old(indices) && !fails
      ensures deleted ==> indices == old(indices) - {indexName}
      ensures !deleted ==> indices == old(indices)
      ensures indexName !in indices <==> deleted || indexName !in old(indices)
    {
      if indexName in indices && !fails {
        indices := indices - {indexName};
        deleted := true;
      } else {
        deleted := false;
      }
    }
  }
}
