/**
 * `HuggingFaceE5Embeddings`: the E5 embedding model wants queries prefixed
 * with `query: ` and documents with `passage: `. The base model of the
 * embedding library is not modelled: it is the function `base` (one call on
 * a list of texts) or `baseQuery` (one call on a single text), and a vector
 * is the opaque type `V`. The batch size `emd_count_docs` is the parameter
 * `k`.
 */
module Embedding {
  import opened Seqs

  const QueryPrefix := "query: "
  const PassagePrefix := "passage: "

  /** The text the model receives for a query: the prefix, then the query unchanged. */
  function QueryInput(text: string): (r: string)
    ensures |r| == |QueryPrefix| + |text|
    ensures r[..|QueryPrefix|] == QueryPrefix && r[|QueryPrefix|..] == text
  {
    QueryPrefix + text
  }

  /** The texts the model receives for documents: each text prefixed, in the same order. */
  function PassageInputs(texts: seq<string>): (r: seq<string>)
    ensures |r| == |texts|
    ensures forall i :: 0 <= i < |texts| ==> r[i] == PassagePrefix + texts[i]
  {
    if texts == [] then [] else PassageInputs(texts[..|texts| - 1]) + [PassagePrefix + texts[|texts| - 1]]
  }

  /** A query input can never be mistaken for a passage input. */
  lemma QueryIsNotPassage(q: string, texts: seq<string>)
    ensures QueryInput(q) !in PassageInputs(texts)
  {
    var r := PassageInputs(texts);
    forall i | 0 <= i < |r| ensures r[i] != QueryInput(q) {
      assert r[i][0] == 'p' != QueryInput(q)[0];
    }
  }

  /** `embed_query`: one call of the base model on the prefixed query. */
  function EmbedQuery<V>(baseQuery: string -> V, text: string): (v: V)
    ensures v == baseQuery(QueryPrefix + text)
  {
    baseQuery(QueryInput(text))
  }

  /** `aembed_query`: one call of the asynchronous base model on the prefixed query. */
  function AEmbedQuery<V>(baseAQuery: string -> V, text: string): (v: V)
    ensures v == baseAQuery(QueryPrefix + text)
  {
    baseAQuery(QueryInput(text))
  }

  /** `aembed_documents`: a single unbatched call of the asynchronous base model on all prefixed texts. */
  function AEmbedDocuments<V>(baseA: seq<string> -> seq<V>, texts: seq<string>): (r: seq<V>)
    ensures r == baseA(PassageInputs(texts))
  {
    baseA(PassageInputs(texts))
  }

  /** The slices `s[i:i+k]` for `i` in `range(0, len(s), k)`, in order. */
  function Batches<T>(s: seq<T>, k: nat): seq<seq<T>>
    requires k > 0
    decreases |s|
  {
    if s == [] then [] else if |s| <= k then [s] else [s[..k]] + Batches(s[k..], k)
  }

  /** The base model's answers for each batch, concatenated in order (the `extend` loop). */
  function EmbedBatches<V>(base: seq<string> -> seq<V>, batches: seq<seq<string>>): seq<V>
  {
    if batches == [] then [] else EmbedBatches(base, batches[..|batches| - 1]) + base(batches[|batches| - 1])
  }

  /** Every batch is non-empty and holds at most `k` texts. */
  lemma {:induction false} BatchesBounded<T>(s: seq<T>, k: nat)
    requires k > 0
    ensures forall j :: 0 <= j < |Batches(s, k)| ==> 0 < |Batches(s, k)[j]| <= k
    decreases |s|
  {
    if |s| > k {
      BatchesBounded(s[k..], k);
    }
  }

  /** Concatenating the batches in order gives back the whole list. */
  lemma {:induction false} BatchesFlatten<T>(s: seq<T>, k: nat)
    requires k > 0
    ensures Flatten(Batches(s, k)) == s
    decreases |s|
  {
    if s == [] {
    } else if |s| <= k {
      FlattenCons(s, []);
    } else {
      BatchesFlatten(s[k..], k);
      FlattenCons(s[..k], Batches(s[k..], k));
      assert s == s[..k] + s[k..];
    }
  }

  /**
   * There are `ceil(n / k)` batches: none for an empty list, otherwise the
   * least `c` with `c * k >= n`.
   */
  lemma {:induction false} BatchesCount<T>(s: seq<T>, k: nat)
    requires k > 0
    ensures s == [] ==> Batches(s, k) == []
    ensures s != [] ==> (|Batches(s, k)| - 1) * k < |s| <= |Batches(s, k)| * k
    decreases |s|
  {
    if |s| > k {
      BatchesCount(s[k..], k);
      var c := |Batches(s[k..], k)|;
      assert |Batches(s, k)| == c + 1;
      assert (c + 1) * k == c * k + k;
    }
  }

  /** The base model turns a list into one vector per text, in order. */
  ghost predicate Pointwise<V>(base: seq<string> -> seq<V>, embed: string -> V)
  {
    forall b: seq<string> :: |base(b)| == |b| && forall i :: 0 <= i < |b| ==> base(b)[i] == embed(b[i])
  }

  /** With a pointwise base model, batching hands back one vector per text, in order. */
  lemma {:induction false} EmbedBatchesPointwise<V>(base: seq<string> -> seq<V>, embed: string -> V, batches: seq<seq<string>>)
    requires Pointwise(base, embed)
    ensures |EmbedBatches(base, batches)| == |Flatten(batches)|
    ensures forall i :: 0 <= i < |Flatten(batches)| ==> EmbedBatches(base, batches)[i] == embed(Flatten(batches)[i])
  {
    if batches != [] {
      var init, last := batches[..|batches| - 1], batches[|batches| - 1];
      EmbedBatchesPointwise(base, embed, init);
      assert |base(last)| == |last|;
      assert forall i :: 0 <= i < |last| ==> base(last)[i] == embed(last[i]);
    }
  }

  /**
   * With a pointwise base model, `embed_documents` returns exactly one vector
   * per input text, the i-th being the embedding of the i-th prefixed text.
   */
  lemma EmbedDocumentsPointwise<V>(base: seq<string> -> seq<V>, embed: string -> V, texts: seq<string>, k: nat)
    requires k > 0 && Pointwise(base, embed)
    ensures var r := EmbedBatches(base, Batches(PassageInputs(texts), k));
      && |r| == |texts|
      && forall i :: 0 <= i < |texts| ==> r[i] == embed(PassagePrefix + texts[i])
  {
    var p := PassageInputs(texts);
    BatchesFlatten(p, k);
    EmbedBatchesPointwise(base, embed, Batches(p, k));
  }

  /**
   * Batching is invisible to the caller: with pointwise base models, the
   * batched `embed_documents` and the unbatched `aembed_documents` agree.
   */
  lemma BatchedMatchesUnbatched<V>(base: seq<string> -> seq<V>, baseA: seq<string> -> seq<V>, embed: string -> V,
                                   texts: seq<string>, k: nat)
    requires k > 0 && Pointwise(base, embed) && Pointwise(baseA, embed)
    ensures EmbedBatches(base, Batches(PassageInputs(texts), k)) == AEmbedDocuments(baseA, texts)
  {
    EmbedDocumentsPointwise(base, embed, texts, k);
    var p := PassageInputs(texts);
    assert |baseA(p)| == |p|;
  }

  /** The batches starting at index `i` of `s`: the slice `s[i:i+k]`, then the rest. */
  lemma BatchesFrom<T>(s: seq<T>, i: nat, k: nat)
    requires k > 0 && i < |s|
    ensures var j := if i + k < |s| then i + k else |s|;
      Batches(s[i..], k) == [s[i..j]] + Batches(s[j..], k)
  {
    var t := s[i..];
    if |t| <= k {
      assert t == s[i..|s|];
      assert s[|s|..] == [];
    } else {
      assert t[..k] == s[i..i + k];
      assert t[k..] == s[i + k..];
    }
  }

  /** One more slice keeps the slices taken so far a prefix of all batches. */
  lemma NextBatch<T>(s: seq<T>, i: nat, k: nat, calls: seq<seq<T>>)
    requires k > 0 && i < |s|
    requires calls + Batches(s[i..], k) == Batches(s, k)
    ensures var j := if i + k < |s| then i + k else |s|;
      (calls + [s[i..j]]) + Batches(s[j..], k) == Batches(s, k)
  {
    BatchesFrom(s, i, k);
  }

  /** One more batch appends the base model's answer for it. */
  lemma EmbedBatchesSnoc<V>(base: seq<string> -> seq<V>, batches: seq<seq<string>>, b: seq<string>)
    ensures EmbedBatches(base, batches + [b]) == EmbedBatches(base, batches) + base(b)
  {
    assert (batches + [b])[..|batches|] == batches;
  }

  /**
   * `embed_documents`: prefixes every text, then calls the base model once per
   * slice `texts[i:i+k]` and concatenates the answers. `calls` is the list of
   * arguments of those calls, in order.
   */
  method EmbedDocuments<V>(base: seq<string> -> seq<V>, k: nat, texts: seq<string>)
    returns (embedTexts: seq<V>, calls: seq<seq<string>>)
    requires k > 0
    ensures calls == Batches(PassageInputs(texts), k)
    ensures embedTexts == EmbedBatches(base, calls)
  {
    var prefixed := PassageInputs(texts);
    var n := |prefixed|;
    embedTexts, calls := [], [];
    var i := 0;
    assert prefixed[0..] == prefixed;
    // `i` runs through 0, k, 2k, ... below n, as `range(0, n, k)` does.
    while i < n
      invariant 0 <= i <= n
      invariant calls + Batches(prefixed[i..], k) == Batches(prefixed, k)
      invariant embedTexts == EmbedBatches(base, calls)
      decreases n - i
    {
      var j := if i + k < n then i + k else n;
      var batch := prefixed[i..j];
      NextBatch(prefixed, i, k, calls);
      EmbedBatchesSnoc(base, calls, batch);
      embedTexts := embedTexts + base(batch);
      calls := calls + [batch];
      i := j;
    }
    assert prefixed[n..] == [];
  }
}
