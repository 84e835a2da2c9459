/**
 * The control logic of the chat bot in `bot_runner.py`. Each handler is one
 * atomic step of the class `Bot`, which holds the two pieces of state the
 * handlers change: the pending-delete token map `temp_storage` and the
 * fragments stored in the search index. Everything the handlers ask of the
 * outside world is a parameter: the pages the search store hands back, the
 * fresh UUIDs, the text splitter and the lower-case map, the BM25 search, the
 * two GPT calls, and whether a call to the search store raises.
 */
module BotRunner {
  import opened Wrappers
  import opened Seqs
  import opened Text
  import opened ElasticIndex

  /** `settings.elk_index`, the one index the bot uses. */
  const ElkIndex := "llmds_storage"

  /** Callback data of a delete button is this prefix followed by a token. */
  const CallbackPrefix := "@@_"

  const StartReply := "Check if index is exist. Clear if exist and create if not"
  const ClearedReply := "Index is cleared"
  const CreatingReply := "Index not found, creating index"
  const ReadyReply := "Elastic is ready"
  const ChooseReply := "Choose which to remove:"
  const AcceptedReply := "Принял в обработку, подождите минуту"
  const LoadedReply := "Файл загружен и готов к использованию"
  const NotFoundReply := "Не удалось найти информации в базе знаний"

  /** The metadata attached to every stored fragment of an uploaded file. */
  datatype Metadata = Metadata(docOwner: int, docId: string, fileName: string, pageNumber: int)

  /** A stored fragment: a chunk of a page together with its metadata. */
  type Fragment = Document<Metadata>

  /** A page of an uploaded PDF as the loader returns it: its text and `metadata['page']`. */
  datatype Page = Page(content: string, number: int)

  /** A search result: a fragment and its relevance score. */
  datatype Hit = Hit(doc: Fragment, score: real)

  /** The `(file_name, doc_id)` pair that identifies one uploaded document. */
  datatype DocKey = DocKey(fileName: string, docId: string)

  /** An inline keyboard button. */
  datatype Button = Button(text: string, callbackData: string)

  /** The two `match` clauses of a delete-by-query: this document of this owner. */
  datatype DeleteQuery = DeleteQuery(docId: string, owner: int)

  /** A call to the language model. */
  datatype GptCall =
    | AskFragment(fragment: Fragment, question: string)
    | Summarize(answers: seq<string>, question: string)

  /** What confirming a delete button did. */
  datatype RemoveOutcome = UnknownToken | Removed | DeleteRaised

  // ----- Callback data -----

  /** The callback data of the button for `token` (`f"@@_{token}"`). */
  function CallbackData(token: string): (r: string)
    ensures |r| == |CallbackPrefix| + |token|
    ensures r[..|CallbackPrefix|] == CallbackPrefix && r[|CallbackPrefix|..] == token
  {
    CallbackPrefix + token
  }

  /** `call.data.replace('@@_', '')`: the token a confirmation refers to. */
  function DecodeCallback(data: string): string
  {
    ReplaceAll(data, CallbackPrefix, "")
  }

  /** Decoding the callback data of a token that does not contain `@@_` gives back the token. */
  lemma CallbackRoundTrip(token: string)
    requires !Contains(token, CallbackPrefix)
    ensures DecodeCallback(CallbackData(token)) == token
  {
    var data := CallbackData(token);
    assert data[..|CallbackPrefix|] == CallbackPrefix;
    assert data[|CallbackPrefix|..] == token;
    ReplaceAbsent(token, CallbackPrefix, "");
  }

  /** The characters of the text form of a UUID: lower-case hex digits and dashes. */
  predicate UuidText(s: string)
  {
    forall i :: 0 <= i < |s| ==> s[i] in "0123456789abcdef-"
  }

  /** So the tokens `save_token` hands out always survive the round trip. */
  lemma UuidRoundTrip(token: string)
    requires UuidText(token)
    ensures DecodeCallback(CallbackData(token)) == token
  {
    forall i ensures !OccursAt(token, CallbackPrefix, i) {
      if 0 <= i && i + |CallbackPrefix| <= |token| {
        assert token[i] != '@';
        assert token[i..i + |CallbackPrefix|][0] == token[i];
      }
    }
    CallbackRoundTrip(token);
  }

  // ----- Delete by query -----

  /** A fragment the delete query selects: the requested document of the requesting owner. */
  predicate Matches(f: Fragment, q: DeleteQuery)
  {
    f.metadata.docId == q.docId && f.metadata.docOwner == q.owner
  }

  /** The store after `delete_by_query`: every selected fragment is gone, the rest stay in order. */
  function DeleteByQuery(store: seq<Fragment>, q: DeleteQuery): seq<Fragment>
  {
    if store == [] then []
    else (if Matches(store[0], q) then [] else [store[0]]) + DeleteByQuery(store[1..], q)
  }

  /**
   * The delete removes exactly the selected fragments: no copy of one stays,
   * and every other fragment keeps all its copies. In particular another
   * owner's fragments, even of the same document, are untouched.
   */
  lemma {:induction false} DeleteByQueryRemovesExactly(store: seq<Fragment>, q: DeleteQuery, f: Fragment)
    ensures multiset(DeleteByQuery(store, q))[f] == if Matches(f, q) then 0 else multiset(store)[f]
  {
    if store != [] {
      DeleteByQueryRemovesExactly(store[1..], q, f);
      assert store == [store[0]] + store[1..];
    }
  }

  /** The delete never adds fragments, and it changes the store exactly when some fragment matches. */
  lemma {:induction false} DeleteByQueryShrinks(store: seq<Fragment>, q: DeleteQuery)
    ensures |DeleteByQuery(store, q)| <= |store|
    ensures DeleteByQuery(store, q) == store <==> forall i :: 0 <= i < |store| ==> !Matches(store[i], q)
  {
    if store != [] {
      DeleteByQueryShrinks(store[1..], q);
      if Matches(store[0], q) {
        assert |DeleteByQuery(store, q)| < |store|;
      } else {
        assert store == [store[0]] + store[1..];
        forall i | 1 <= i < |store| ensures store[i] == store[1..][i - 1] { }
      }
    }
  }

  /** The delete keeps the remaining fragments in their order: it only ever drops elements. */
  lemma {:induction false} DeleteByQueryKeepsOrder(store: seq<Fragment>, q: DeleteQuery)
    ensures Subsequence(DeleteByQuery(store, q), store)
  {
    if store != [] {
      var rest := DeleteByQuery(store[1..], q);
      DeleteByQueryKeepsOrder(store[1..], q);
      assert [store[0]] + store[1..] == store;
      if Matches(store[0], q) {
        assert DeleteByQuery(store, q) == rest;
        SubsequenceSkip(rest, store[1..], store[0]);
      } else {
        assert DeleteByQuery(store, q) == [store[0]] + rest;
        assert ([store[0]] + rest)[1..] == rest;
      }
    }
  }

  // ----- Scroll accumulation and listing -----

  /**
   * The scroll loop of `doc_handler`: `pages[0]` is the answer to the search,
   * `pages[1..]` the answers to successive scroll calls. Scrolling stops after
   * the first empty page, so `scrollCalls` is the index of that page; the hits
   * are the pages before it, in order.
   */
  method CollectHits(pages: seq<seq<Fragment>>) returns (hits: seq<Fragment>, scrollCalls: nat)
    requires exists e :: 0 <= e < |pages| && pages[e] == []
    ensures scrollCalls < |pages| && pages[scrollCalls] == []
    ensures forall j :: 0 <= j < scrollCalls ==> pages[j] != []
    ensures hits == Flatten(pages[..scrollCalls])
  {
    ghost var e :| 0 <= e < |pages| && pages[e] == [];
    var page := pages[0];
    FlattenNext(pages, 0);
    hits := page;
    scrollCalls := 0;
    while |page| > 0
      invariant scrollCalls <= e
      invariant page == pages[scrollCalls]
      invariant forall j :: 0 <= j < scrollCalls ==> pages[j] != []
      invariant hits == Flatten(pages[..scrollCalls + 1])
      decreases e - scrollCalls
    {
      scrollCalls := scrollCalls + 1;
      page := pages[scrollCalls];
      FlattenNext(pages, scrollCalls);
      hits := hits + page;
    }
    FlattenNext(pages, scrollCalls);
  }

  /** The pages up to `k` inclusive are the pages before `k`, then page `k`. */
  lemma FlattenNext<T>(pages: seq<seq<T>>, k: nat)
    requires k < |pages|
    ensures Flatten(pages[..k + 1]) == Flatten(pages[..k]) + pages[k]
  {
    assert pages[..k + 1] == pages[..k] + [pages[k]];
    FlattenSnoc(pages[..k], pages[k]);
  }

  /** The identifying pair of a fragment's document. */
  function Key(f: Fragment): DocKey
  {
    DocKey(f.metadata.fileName, f.metadata.docId)
  }

  /** `all_unic_docs`: the set of distinct `(file_name, doc_id)` pairs among the hits. */
  function DistinctDocs(hits: seq<Fragment>): set<DocKey>
  {
    set h | h in hits :: Key(h)
  }

  /** There are never more distinct documents than hits. */
  lemma {:induction false} DistinctDocsBounded(hits: seq<Fragment>)
    ensures |DistinctDocs(hits)| <= |hits|
    decreases |hits|
  {
    if hits != [] {
      var init, last := hits[..|hits| - 1], hits[|hits| - 1];
      DistinctDocsBounded(init);
      assert hits == init + [last];
      assert DistinctDocs(hits) == DistinctDocs(init) + {Key(last)};
    }
  }

  /** A repeated pair does not grow the set of documents. */
  lemma DuplicateAddsNothing(hits: seq<Fragment>, f: Fragment)
    requires Key(f) in DistinctDocs(hits)
    ensures DistinctDocs(hits + [f]) == DistinctDocs(hits)
  {
  }

  /** The hits before the first empty page are no more than the fragments of all pages. */
  lemma {:induction false} FlattenPrefixShorter<T>(ss: seq<seq<T>>, n: nat)
    requires n <= |ss|
    ensures |Flatten(ss[..n])| <= |Flatten(ss)|
  {
    FlattenAppend(ss[..n], ss[n..]);
    assert ss[..n] + ss[n..] == ss;
  }

  /**
   * The token map after the listing loop: `docs[i].docId` recorded under the
   * fresh id `ids[i]`, one after the other.
   */
  function Register(m: map<string, string>, ids: seq<string>, docs: seq<DocKey>): map<string, string>
    requires |ids| == |docs|
  {
    if docs == [] then m
    else Register(m, ids[..|ids| - 1], docs[..|docs| - 1])[ids[|ids| - 1] := docs[|docs| - 1].docId]
  }

  /** The listing adds exactly the ids as keys. */
  lemma {:induction false} RegisterKeys(m: map<string, string>, ids: seq<string>, docs: seq<DocKey>)
    requires |ids| == |docs|
    ensures Register(m, ids, docs).Keys == m.Keys + (set k | k in ids)
  {
    if docs != [] {
      var n := |ids| - 1;
      RegisterKeys(m, ids[..n], docs[..n]);
      assert ids == ids[..n] + [ids[n]];
    }
  }

  /** With ids not yet in the map, every earlier entry is unchanged. */
  lemma {:induction false} RegisterKeeps(m: map<string, string>, ids: seq<string>, docs: seq<DocKey>, k: string)
    requires |ids| == |docs|
    requires forall i :: 0 <= i < |ids| ==> ids[i] != k
    requires k in m
    ensures k in Register(m, ids, docs) && Register(m, ids, docs)[k] == m[k]
  {
    if docs != [] {
      var n := |ids| - 1;
      RegisterKeeps(m, ids[..n], docs[..n], k);
    }
  }

  /** With distinct ids, each id ends up mapped to its own document's id. */
  lemma {:induction false} RegisterMaps(m: map<string, string>, ids: seq<string>, docs: seq<DocKey>, i: nat)
    requires |ids| == |docs| && i < |ids|
    requires forall a, b :: 0 <= a < b < |ids| ==> ids[a] != ids[b]
    ensures ids[i] in Register(m, ids, docs) && Register(m, ids, docs)[ids[i]] == docs[i].docId
  {
    var n := |ids| - 1;
    if i < n {
      RegisterMaps(m, ids[..n], docs[..n], i);
    }
  }

  /**
   * With fresh, distinct ids, the listing adds exactly one entry per id,
   * mapped to its document's id, and leaves every earlier entry unchanged.
   */
  lemma RegisterSpec(m: map<string, string>, ids: seq<string>, docs: seq<DocKey>)
    requires |ids| == |docs|
    requires forall i, j :: 0 <= i < j < |ids| ==> ids[i] != ids[j]
    requires forall i :: 0 <= i < |ids| ==> ids[i] !in m
    ensures Register(m, ids, docs).Keys == m.Keys + (set k | k in ids)
    ensures forall k :: k in m ==> k in Register(m, ids, docs) && Register(m, ids, docs)[k] == m[k]
    ensures forall i :: 0 <= i < |ids| ==> Register(m, ids, docs)[ids[i]] == docs[i].docId
  {
    RegisterKeys(m, ids, docs);
    forall k | k in m ensures k in Register(m, ids, docs) && Register(m, ids, docs)[k] == m[k] {
      RegisterKeeps(m, ids, docs, k);
    }
    forall i | 0 <= i < |ids| ensures Register(m, ids, docs)[ids[i]] == docs[i].docId {
      RegisterMaps(m, ids, docs, i);
    }
  }

  /**
   * Listing document `n` next: its fresh id is not yet in the map built so
   * far, and recording it extends that map by exactly this entry.
   */
  lemma RegisterNext(m: map<string, string>, freshIds: seq<string>, listed: seq<DocKey>, n: nat)
    requires n < |listed| <= |freshIds|
    requires forall i, j :: 0 <= i < j < |freshIds| ==> freshIds[i] != freshIds[j]
    requires forall i :: 0 <= i < |freshIds| ==> freshIds[i] !in m
    ensures freshIds[n] !in Register(m, freshIds[..n], listed[..n])
    ensures Register(m, freshIds[..n + 1], listed[..n + 1])
         == Register(m, freshIds[..n], listed[..n])[freshIds[n] := listed[n].docId]
  {
    RegisterFresh(m, freshIds, listed[..n]);
    RegisterStep(m, freshIds, listed[..n], listed[n]);
    assert listed[..n] + [listed[n]] == listed[..n + 1];
  }

  /** The next fresh id is not yet in the map the listing has built so far. */
  lemma RegisterFresh(m: map<string, string>, freshIds: seq<string>, listed: seq<DocKey>)
    requires |listed| < |freshIds|
    requires forall i, j :: 0 <= i < j < |freshIds| ==> freshIds[i] != freshIds[j]
    requires forall i :: 0 <= i < |freshIds| ==> freshIds[i] !in m
    ensures freshIds[|listed|] !in Register(m, freshIds[..|listed|], listed)
  {
    var n := |listed|;
    RegisterKeys(m, freshIds[..n], listed);
    assert forall k :: k in freshIds[..n] ==> k != freshIds[n];
  }

  /** One more listed document extends the map by its entry. */
  lemma RegisterStep(m: map<string, string>, freshIds: seq<string>, listed: seq<DocKey>, doc: DocKey)
    requires |listed| < |freshIds|
    ensures Register(m, freshIds[..|listed| + 1], listed + [doc])
         == Register(m, freshIds[..|listed|], listed)[freshIds[|listed|] := doc.docId]
  {
    var n := |listed|;
    assert freshIds[..n + 1][..n] == freshIds[..n];
    assert (listed + [doc])[..n] == listed;
  }

  /** Walks a set in some order: each element exactly once. */
  method Enumerate<T>(items: set<T>) returns (walk: seq<T>)
    ensures |walk| == |items| && forall x :: x in items <==> x in walk
    ensures forall i, j :: 0 <= i < j < |walk| ==> walk[i] != walk[j]
  {
    var remaining := items;
    walk := [];
    while remaining != {}
      invariant remaining <= items
      invariant |walk| + |remaining| == |items|
      invariant forall x :: x in items <==> x in walk || x in remaining
      invariant forall i :: 0 <= i < |walk| ==> walk[i] !in remaining
      invariant forall i, j :: 0 <= i < j < |walk| ==> walk[i] != walk[j]
      decreases |remaining|
    {
      var x :| x in remaining;
      walk := walk + [x];
      remaining := remaining - {x};
    }
  }

  class Bot {
    /** `temp_storage`: pending-delete token to document id. */
    var tempStorage: map<string, string>
    /** The fragments stored in the index `ElkIndex`, in the order they were written. */
    var store: seq<Fragment>

    constructor ()
      ensures tempStorage == map[] && store == []
    {
      tempStorage := map[];
      store := [];
    }

    /**
     * `command_start_handler`: clears the index by deleting it when it exists
     * (the delete may raise, `deleteRaises`, and is caught), then creates it
     * if needed. The create has no `try`: when its existence check or its
     * create call raises, the exception leaves the handler before "Elastic is
     * ready", so a cleared index is then gone. Otherwise the index exists
     * afterwards, and no other index is touched either way.
     */
    method StartCommand(es: Elastic, deleteRaises: bool, existsRaises: bool, createRaises: bool)
      returns (replies: seq<string>, raised: bool)
      modifies this`store, es
      ensures var cleared := ElkIndex in old(es.indices) && !deleteRaises;
        && (raised <==> existsRaises || ((cleared || ElkIndex !in old(es.indices)) && createRaises))
        && (!raised ==> es.indices == old(es.indices) + {ElkIndex})
        && (raised ==> es.indices == if cleared then old(es.indices) - {ElkIndex} else old(es.indices))
        && (cleared ==> store == [])
        && (!cleared ==> store == old(store))
        && replies == [StartReply, if cleared then ClearedReply else CreatingReply]
                      + (if raised then [] else [ReadyReply])
    {
      replies := [StartReply];
      var cleared := es.DeleteIndex(ElkIndex, deleteRaises);
      if cleared {
        store := [];
        replies := replies + [ClearedReply];
      } else {
        replies := replies + [CreatingReply];
      }
      var created;
      created, raised := es.CreateIndex(ElkIndex, existsRaises, createRaises);
      if !raised {
        replies := replies + [ReadyReply];
      }
    }

    /**
     * `save_token`: records `token` under the fresh id `dataId` (the UUID the
     * source generates) and returns that id. Exactly one entry is added and
     * every existing entry is unchanged.
     */
    method SaveToken(token: string, dataId: string) returns (id: string)
      requires dataId !in tempStorage
      modifies this`tempStorage
      ensures id == dataId
      ensures tempStorage == old(tempStorage)[dataId := token]
      ensures tempStorage.Keys == old(tempStorage).Keys + {dataId}
      ensures |tempStorage| == |old(tempStorage)| + 1
    {
      tempStorage := tempStorage[dataId := token];
      id := dataId;
    }

    /**
     * The keyboard loop of `doc_handler`: one button per distinct document, in
     * the (arbitrary) order `listed` in which the set is walked. The button
     * shows the file name and carries a fresh token mapped to the document
     * id; `freshIds` are the UUIDs generated, one per button.
     */
    method ListDocs(docs: set<DocKey>, freshIds: seq<string>) returns (listed: seq<DocKey>, buttons: seq<Button>)
      requires |freshIds| >= |docs|
      requires forall i, j :: 0 <= i < j < |freshIds| ==> freshIds[i] != freshIds[j]
      requires forall i :: 0 <= i < |freshIds| ==> freshIds[i] !in tempStorage
      modifies this`tempStorage
      ensures |listed| == |docs| && forall d :: d in docs <==> d in listed
      ensures forall i, j :: 0 <= i < j < |listed| ==> listed[i] != listed[j]
      ensures |buttons| == |listed|
      ensures forall i :: 0 <= i < |listed| ==> buttons[i] == Button(listed[i].fileName, CallbackData(freshIds[i]))
      ensures tempStorage == Register(old(tempStorage), freshIds[..|listed|], listed)
    {
      listed := Enumerate(docs);
      buttons := IssueButtons(listed, freshIds);
    }

    /**
     * The body of the keyboard loop for the documents in the order `listed`:
     * button `i` shows the file name of `listed[i]` and carries the fresh
     * token `freshIds[i]`, which `save_token` maps to its document id.
     */
    method IssueButtons(listed: seq<DocKey>, freshIds: seq<string>) returns (buttons: seq<Button>)
      requires |freshIds| >= |listed|
      requires forall i, j :: 0 <= i < j < |freshIds| ==> freshIds[i] != freshIds[j]
      requires forall i :: 0 <= i < |freshIds| ==> freshIds[i] !in tempStorage
      modifies this`tempStorage
      ensures |buttons| == |listed|
      ensures forall i :: 0 <= i < |listed| ==> buttons[i] == Button(listed[i].fileName, CallbackData(freshIds[i]))
      ensures tempStorage == Register(old(tempStorage), freshIds[..|listed|], listed)
    {
      buttons := [];
      for n := 0 to |listed|
        invariant |buttons| == n
        invariant forall i :: 0 <= i < n ==> buttons[i] == Button(listed[i].fileName, CallbackData(freshIds[i]))
        invariant tempStorage == Register(old(tempStorage), freshIds[..n], listed[..n])
      {
        RegisterNext(old(tempStorage), freshIds, listed, n);
        var token := SaveToken(listed[n].docId, freshIds[n]);
        buttons := buttons + [Button(listed[n].fileName, CallbackData(token))];
      }
      assert listed[..|listed|] == listed;
    }

    /**
     * `doc_handler`: scrolls through the owner's fragments, then lists one
     * button per distinct document among them.
     */
    method DocHandler(pages: seq<seq<Fragment>>, freshIds: seq<string>)
      returns (hits: seq<Fragment>, listed: seq<DocKey>, buttons: seq<Button>, reply: string)
      requires exists e :: 0 <= e < |pages| && pages[e] == []
      requires |freshIds| >= |Flatten(pages)|
      requires forall i, j :: 0 <= i < j < |freshIds| ==> freshIds[i] != freshIds[j]
      requires forall i :: 0 <= i < |freshIds| ==> freshIds[i] !in tempStorage
      modifies this`tempStorage
      ensures exists e :: 0 <= e < |pages| && pages[e] == [] && (forall j :: 0 <= j < e ==> pages[j] != [])
                          && hits == Flatten(pages[..e])
      ensures |listed| == |DistinctDocs(hits)| <= |freshIds| && forall d :: d in DistinctDocs(hits) <==> d in listed
      ensures |buttons| == |listed|
      ensures forall i :: 0 <= i < |listed| ==> buttons[i] == Button(listed[i].fileName, CallbackData(freshIds[i]))
      ensures tempStorage == Register(old(tempStorage), freshIds[..|listed|], listed)
      ensures reply == ChooseReply
    {
      var scrollCalls;
      hits, scrollCalls := CollectHits(pages);
      DistinctDocsBounded(hits);
      FlattenPrefixShorter(pages, scrollCalls);
      listed, buttons := ListDocs(DistinctDocs(hits), freshIds);
      reply := ChooseReply;
    }

    /**
     * `what_to_remove_handler`: decodes the token from the callback data. A
     * token that is unknown, or mapped to the empty document id, does nothing.
     * Otherwise exactly one delete-by-query for that document and the caller
     * is issued; only if it does not raise is the token removed.
     */
    method WhatToRemove(data: string, userId: int, deleteRaises: bool)
      returns (outcome: RemoveOutcome, issued: seq<DeleteQuery>)
      modifies this
      ensures var uid := DecodeCallback(data);
        if uid in old(tempStorage) && old(tempStorage)[uid] != "" then
          && issued == [DeleteQuery(old(tempStorage)[uid], userId)]
          && (deleteRaises ==> outcome == DeleteRaised && tempStorage == old(tempStorage) && store == old(store))
          && (!deleteRaises ==> outcome == Removed && tempStorage == old(tempStorage) - {uid}
                                && store == DeleteByQuery(old(store), issued[0]))
        else
          outcome == UnknownToken && issued == [] && tempStorage == old(tempStorage) && store == old(store)
    {
      var uid := DecodeCallback(data);
      var dataId := if uid in tempStorage then tempStorage[uid] else "";
      if dataId != "" {
        var query := DeleteQuery(dataId, userId);
        issued := [query];
        if deleteRaises {
          outcome := DeleteRaised;
        } else {
          store := DeleteByQuery(store, query);
          tempStorage := tempStorage - {uid};
          outcome := Removed;
        }
      } else {
        outcome, issued := UnknownToken, [];
      }
    }

    /**
     * The upload branch of `echo_handler`: the reply that the file was
     * accepted, the page loop, and then the reply that it is loaded, or the
     * error text when writing page `failAt` raised.
     */
    method Upload(split: string -> seq<string>, lower: char -> char, userId: int, fileId: string, fileName: string,
                  pages: seq<Page>, failAt: Option<nat>, errorText: string)
      returns (writes: seq<seq<Fragment>>, replies: seq<string>)
      modifies this`store
      ensures writes == PagesFragments(PageWriter(split, lower, userId, fileId, fileName), pages[..PagesWritten(|pages|, failAt)])
      ensures store == old(store) + UploadedFragments(PageWriter(split, lower, userId, fileId, fileName), pages[..PagesWritten(|pages|, failAt)])
      ensures replies == [AcceptedReply, if PagesWritten(|pages|, failAt) < |pages| then errorText else LoadedReply]
    {
      replies := [AcceptedReply];
      var written;
      writes, written := WritePages(split, lower, userId, fileId, fileName, pages, failAt);
      if written < |pages| {
        replies := replies + [errorText];
      } else {
        replies := replies + [LoadedReply];
      }
    }

    /**
     * The page loop of the upload: every page is split, each chunk is tagged
     * with the owner, the file id, the file name and the page number, and the
     * chunks of each page are written in page order. Writing page `failAt`
     * raises, which ends the loop; the pages before it stay written.
     */
    method WritePages(split: string -> seq<string>, lower: char -> char, userId: int, fileId: string,
                      fileName: string, pages: seq<Page>, failAt: Option<nat>)
      returns (writes: seq<seq<Fragment>>, written: nat)
      modifies this`store
      ensures written == PagesWritten(|pages|, failAt)
      ensures writes == PagesFragments(PageWriter(split, lower, userId, fileId, fileName), pages[..written])
      ensures store == old(store) + UploadedFragments(PageWriter(split, lower, userId, fileId, fileName), pages[..written])
    {
      writes := [];
      written := 0;
      while written < |pages| && failAt != Some(written)
        invariant 0 <= written <= |pages|
        invariant failAt.None? || failAt.value >= written
        invariant writes == PagesFragments(PageWriter(split, lower, userId, fileId, fileName), pages[..written])
        invariant store == old(store) + UploadedFragments(PageWriter(split, lower, userId, fileId, fileName), pages[..written])
      {
        ghost var current := store;
        var splittedPage := WritePage(split, lower, userId, fileId, fileName, pages[written]);
        UploadStep(PageWriter(split, lower, userId, fileId, fileName), pages, written, old(store), current, splittedPage);
        writes := writes + [splittedPage];
        written := written + 1;
      }
    }

    /**
     * One iteration of the upload loop: the page's metadata, `text_splitter`,
     * then `aadd_documents`, which appends the page's fragments to the store.
     */
    method WritePage(split: string -> seq<string>, lower: char -> char, userId: int, fileId: string, fileName: string,
                     page: Page)
      returns (splittedPage: seq<Fragment>)
      modifies this`store
      ensures splittedPage == PageFragments(split, lower, userId, fileId, fileName, page)
      ensures store == old(store) + splittedPage
    {
      var pageMetadata := Metadata(userId, fileId, fileName, page.number);
      splittedPage := TextSplitter(split, lower, page.content, pageMetadata);
      store := store + splittedPage;
    }

    /**
     * The query branch of `echo_handler`: the search runs on the lower-cased
     * text (or raises, `searchError`). No result replies "not found" and asks
     * nothing; otherwise every result in order is put to the fragment prompt
     * with the original text, then the answers are summarised once.
     */
    method Query(search: (seq<Fragment>, string) -> seq<Hit>, askGpt: (Fragment, string) -> string,
                 summarize: (seq<string>, string) -> string, lower: char -> char,
                 text: string, searchError: Option<string>)
      returns (documents: seq<Hit>, calls: seq<GptCall>, reply: string)
      ensures searchError.Some? ==> documents == [] && calls == [] && reply == searchError.value
      ensures searchError.None? ==> documents == search(store, Lower(text, lower))
      ensures searchError.None? && documents == [] ==> calls == [] && reply == NotFoundReply
      ensures searchError.None? && documents != [] ==>
        && |calls| == |documents| + 1
        && (forall i :: 0 <= i < |documents| ==> calls[i] == AskFragment(documents[i].doc, text))
        && calls[|documents|] == Summarize(Answers(askGpt, documents, text), text)
        && reply == summarize(Answers(askGpt, documents, text), text)
    {
      if searchError.Some? {
        return [], [], searchError.value;
      }
      documents := search(store, Lower(text, lower));
      if documents == [] {
        return documents, [], NotFoundReply;
      }
      var answers := [];
      calls := [];
      for i := 0 to |documents|
        invariant |answers| == i && |calls| == i
        invariant forall j :: 0 <= j < i ==> answers[j] == askGpt(documents[j].doc, text)
        invariant forall j :: 0 <= j < i ==> calls[j] == AskFragment(documents[j].doc, text)
      {
        var answer := askGpt(documents[i].doc, text);
        calls := calls + [AskFragment(documents[i].doc, text)];
        answers := answers + [answer];
      }
      assert answers == Answers(askGpt, documents, text);
      reply := summarize(answers, text);
      calls := calls + [Summarize(answers, text)];
    }
  }

  /** How many pages an upload writes: all of them, or those before the failing one. */
  function PagesWritten(n: nat, failAt: Option<nat>): (r: nat)
    ensures r <= n
    ensures r < n <==> failAt.Some? && failAt.value < n
    ensures failAt.Some? && failAt.value < n ==> r == failAt.value
  {
    if failAt.Some? && failAt.value < n then failAt.value else n
  }

  /** The fragments written for one page: its chunks in order, each tagged with the page's metadata. */
  function PageFragments(split: string -> seq<string>, lower: char -> char, userId: int, fileId: string,
                         fileName: string, page: Page): seq<Fragment>
  {
    Tagged(split(Text2Doc(page.content, lower)), Metadata(userId, fileId, fileName, page.number))
  }

  /** The answers of the fragment prompt for each result, in order. */
  function Answers(askGpt: (Fragment, string) -> string, documents: seq<Hit>, text: string): (r: seq<string>)
    ensures |r| == |documents|
    ensures forall i :: 0 <= i < |documents| ==> r[i] == askGpt(documents[i].doc, text)
  {
    seq(|documents|, i requires 0 <= i < |documents| => askGpt(documents[i].doc, text))
  }

  /** The write of one page as a function of the page, for the upload's other parameters. */
  function PageWriter(split: string -> seq<string>, lower: char -> char, userId: int, fileId: string,
                      fileName: string): Page -> seq<Fragment>
  {
    p => PageFragments(split, lower, userId, fileId, fileName, p)
  }

  /** The fragments written for each of the pages, page by page. */
  function PagesFragments(write: Page -> seq<Fragment>, pages: seq<Page>): seq<seq<Fragment>>
  {
    if pages == [] then [] else PagesFragments(write, pages[..|pages| - 1]) + [write(pages[|pages| - 1])]
  }

  /** Everything an upload of these pages stores, in order: the pages' fragments one page after another. */
  function UploadedFragments(write: Page -> seq<Fragment>, pages: seq<Page>): seq<Fragment>
  {
    if pages == [] then [] else UploadedFragments(write, pages[..|pages| - 1]) + write(pages[|pages| - 1])
  }

  /** Writing page `i` after pages `..i` extends the store and the list of writes by that page. */
  lemma UploadStep(write: Page -> seq<Fragment>, pages: seq<Page>, i: nat, before: seq<Fragment>,
                   current: seq<Fragment>, written: seq<Fragment>)
    requires i < |pages|
    requires current == before + UploadedFragments(write, pages[..i])
    requires written == write(pages[i])
    ensures current + written == before + UploadedFragments(write, pages[..i + 1])
    ensures PagesFragments(write, pages[..i + 1]) == PagesFragments(write, pages[..i]) + [written]
  {
    assert pages[..i + 1][..i] == pages[..i];
    var u := UploadedFragments(write, pages[..i]);
    ConcatAssoc(before, u, written);
  }

  /** What is stored is the concatenation of the page writes. */
  lemma {:induction false} UploadedIsFlattenedWrites(write: Page -> seq<Fragment>, pages: seq<Page>)
    ensures UploadedFragments(write, pages) == Flatten(PagesFragments(write, pages))
  {
    if pages != [] {
      var init := pages[..|pages| - 1];
      UploadedIsFlattenedWrites(write, init);
      FlattenSnoc(PagesFragments(write, init), write(pages[|pages| - 1]));
    }
  }

  /** One write per page, in page order. */
  lemma {:induction false} PagesFragmentsSpec(write: Page -> seq<Fragment>, pages: seq<Page>)
    ensures |PagesFragments(write, pages)| == |pages|
    ensures forall i :: 0 <= i < |pages| ==> PagesFragments(write, pages)[i] == write(pages[i])
  {
    if pages != [] {
      PagesFragmentsSpec(write, pages[..|pages| - 1]);
    }
  }

  /**
   * Everything an upload stores was written for one of its pages (and, by
   * `PageFragmentTagged`, carries that page's metadata and is one of its
   * chunks).
   */
  lemma WrittenForSomePage(write: Page -> seq<Fragment>, pages: seq<Page>, f: Fragment)
    requires f in Flatten(PagesFragments(write, pages))
    ensures exists i :: 0 <= i < |pages| && f in write(pages[i])
  {
    var writes := PagesFragments(write, pages);
    PagesFragmentsSpec(write, pages);
    FlattenMember(writes, f);
    var i :| 0 <= i < |writes| && f in writes[i];
    assert f in write(pages[i]);
  }

  /**
   * A fragment written for a page carries the uploader as owner, the file id
   * as document id, the file name and the page number, and its text is one of
   * the chunks of the page text after `_text2doc`.
   */
  lemma PageFragmentTagged(split: string -> seq<string>, lower: char -> char, userId: int, fileId: string,
                           fileName: string, page: Page, f: Fragment)
    requires f in PageWriter(split, lower, userId, fileId, fileName)(page)
    ensures f.metadata == Metadata(userId, fileId, fileName, page.number)
    ensures f.pageContent in split(Text2Doc(page.content, lower))
  {
    var chunks := split(Text2Doc(page.content, lower));
    var written := PageFragments(split, lower, userId, fileId, fileName, page);
    TaggedSpec(chunks, Metadata(userId, fileId, fileName, page.number));
    var k :| 0 <= k < |written| && written[k] == f;
    assert f.pageContent == chunks[k];
  }
}
