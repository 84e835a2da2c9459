# LLMDS chat bot: a verified model of its own logic

The repository is a Telegram bot. Users upload PDF files, and the bot cuts
them into fragments and stores them in an Elasticsearch index. A question is
answered by retrieving fragments with BM25 and asking a GPT model about each
one, then summarising the answers. Most of the code is glue around those
services. This project models the parts of the logic that are the
repository's own, with every external service abstracted:

- `text.dfy` (module `Text`): `TextRefactor._text2doc`. It is the fixed chain of
  `str.replace` calls followed by `strip(string.punctuation)`, `strip()` and
  `lower()`. `str.replace` is modelled as left-to-right, non-overlapping
  replace-all.
- `text.dfy`: `TextRefactor.text_splitter`, which wraps each chunk from the
  external splitter into a `Document` that carries the caller's metadata.
- `embedding.dfy` (module `Embedding`): `HuggingFaceE5Embeddings`. It adds the
  `query: ` and `passage: ` prefixes, and `embed_documents` sends the texts in
  batches of at most `k`.
- `elastic.dfy` (module `ElasticIndex`): `Elastic.create_index` and
  `Elastic.delete_index`, as a class over the set of existing index names.
- `bot.dfy` (module `BotRunner`): the handlers of `bot_runner.py`, as methods of
  the class `Bot`. Its two fields are the pending-delete token map
  `temp_storage` and the sequence of fragments stored in the index.
  - `command_start_handler`;
  - `save_token`;
  - `doc_handler`: the scroll loop and the one-button-per-document listing;
  - `what_to_remove_handler`;
  - `echo_handler`: the upload loop and the query/answer loop.
- `seqs.dfy` and `wrappers.dfy`: shared helpers (`Flatten`, `Option`).

External services become parameters:

| Service | Parameter |
|---|---|
| Text splitter | `split: string -> seq<string>` |
| Unicode lower-case map | `lower: char -> char` |
| Base embedding model | `base`, `baseQuery`, `baseA`, `baseAQuery`; vectors are the type parameter `V` |
| BM25 search | `search` |
| The two GPT calls | `askGpt`, `summarize` |
| Pages the loader or the scroll API hand back | `pages` |
| UUIDs | `freshIds`, `dataId` |
| Whether a call raises | `fails`, `deleteRaises`, `existsRaises`, `createRaises`, `failAt`, `searchError` |

Each handler is one atomic step.

Three behaviours of the code are worth noting:
- `temp_storage` is never cleared: every listing only adds tokens.
- `create_index` has no `try`. When its existence check or its create call
  raises, `command_start_handler` stops before "Elastic is ready"; after a
  successful delete no index is then left.
- `what_to_remove_handler` has no `try`. When `delete_by_query` raises, the
  exception escapes and `del temp_storage[uid]` does not run, so the token
  stays and the store is unchanged (`DeleteRaised`).

## Model

| member | source | states |
|---|---|---|
| Text.ReplaceChars | src/modules/transformer.py:35-44 | A replace-all introduces no character: each character of the result is in the input or in the replacement |
| Text.ReplaceRemovesChar | src/modules/transformer.py:35-42 | Replacing a single character by a text without it leaves no occurrence of that character |
| Text.ReplaceAbsent | src/modules/transformer.py:34-44 | A replace-all whose pattern does not occur returns the text unchanged |
| Text.ReplaceAppend | src/modules/transformer.py:35-44 | Replacing in a concatenation is replacing in each part, when the first part ends in a character outside the pattern |
| Text.TrimStartSpec | src/modules/transformer.py:45 | Left strip: the result is a suffix of the input, it is empty or starts outside the set, and everything removed is in the set |
| Text.TrimEndSpec | src/modules/transformer.py:45 | Right strip: the result is a prefix of the input, it is empty or ends outside the set, and everything removed is in the set |
| Text.StripSpec | src/modules/transformer.py:45 | `strip(chars)`: the result is empty or has both ends outside the set, and every character of it comes from the input |
| Text.Lower | src/modules/transformer.py:45 | `lower()`: same length, and each character is the lower map of the input character at the same place |
| Text.SpaceRunsTwoPasses | src/modules/transformer.py:43-44 | The space stage is the replace of three spaces by one, followed by the replace of two spaces by one |
| Text.Text2DocChain | src/modules/transformer.py:34-45 | `_text2doc` is, in order: the replace chain, the space passes, the punctuation strip, the whitespace strip, then lower |
| Text.ScrubRemovesMarkup | src/modules/transformer.py:35-44 | After the replace chain there is no `"`, newline, `-` or `>` |
| Text.Text2DocHasNoMarkup | src/modules/transformer.py:35-45 | The output of `_text2doc` has no `"`, newline, `-` or `>`, given a lower map that maps only markup to markup |
| Text.Text2DocIsTrimmed | src/modules/transformer.py:45 | The output of `_text2doc` has no leading or trailing whitespace, given a lower map that maps only whitespace to whitespace |
| Text.Text2DocIsLowerCase | src/modules/transformer.py:45 | Lower-casing the output of `_text2doc` again changes nothing, for an idempotent lower map |
| Text.Text2DocEmpty | src/modules/transformer.py:34-46 | The empty text normalises to the empty text |
| Text.SpaceRunCollapses | src/modules/transformer.py:43-44 | A run of two, three or four spaces between non-spaces becomes one space, and the text on each side is processed independently |
| Text.FiveSpacesBecomeTwo | src/modules/transformer.py:43-44 | The collapse is incomplete: five spaces become two |
| Text.PunctuationBehindSpaceSurvives | src/modules/transformer.py:45 | The punctuation strip runs before the whitespace strip: `" .x. "` keeps its punctuation and becomes `".x."` |
| Text.TaggedSpec | src/modules/transformer.py:57-61 | One document per chunk, in order; the i-th holds the i-th chunk unchanged and the given metadata |
| Text.WrapChunks | src/modules/transformer.py:57-61 | The append loop builds exactly the tagged list of the chunks |
| Text.TextSplitter | src/modules/transformer.py:48-61 | `text_splitter` gives one document per chunk of `split(_text2doc(page_text))`, in order with unchanged text, each carrying `page_context` unchanged |
| Embedding.QueryInput | src/modules/embedding.py:16 | The query input is `query: ` followed by the query unchanged |
| Embedding.PassageInputs | src/modules/embedding.py:26 | Same length, and the i-th input is `passage: ` followed by the i-th text |
| Embedding.QueryIsNotPassage | src/modules/embedding.py:9-30 | A query input is never equal to a passage input |
| Embedding.EmbedQuery | src/modules/embedding.py:9-17 | `embed_query` calls the base model once, on `query: ` + text |
| Embedding.AEmbedQuery | src/modules/embedding.py:33-41 | `aembed_query` calls the asynchronous base model once, on `query: ` + text |
| Embedding.AEmbedDocuments | src/modules/embedding.py:43-53 | `aembed_documents` makes a single unbatched call on all the prefixed texts |
| Embedding.BatchesBounded | src/modules/embedding.py:28-29 | Every batch is non-empty and has at most `k` texts |
| Embedding.BatchesFlatten | src/modules/embedding.py:28-29 | The batches concatenated in order are the whole list |
| Embedding.BatchesCount | src/modules/embedding.py:27-30 | No batch for an empty list; otherwise ceil(n/k) batches |
| Embedding.EmbedBatchesPointwise | src/modules/embedding.py:29-30 | With a pointwise base model, the extended answers give one vector per text of the batches, in order |
| Embedding.EmbedDocumentsPointwise | src/modules/embedding.py:19-30 | With a pointwise base model, `embed_documents` has the input's length, and its i-th vector embeds `passage: ` + the i-th text |
| Embedding.BatchedMatchesUnbatched | src/modules/embedding.py:19-53 | With pointwise base models, batched `embed_documents` and unbatched `aembed_documents` agree |
| Embedding.EmbedDocuments | src/modules/embedding.py:19-30 | The loop calls the base model on exactly the batches of the prefixed list, in order, and returns their answers concatenated |
| ElasticIndex.Elastic.CreateIndex | src/modules/elastic.py:16-23 | Raises exactly when the existence check raises, or the name is absent and the create raises, and then nothing changes. Otherwise it returns true exactly when the name was absent, the name is present afterwards, and no other name changes |
| ElasticIndex.Elastic.DeleteIndex | src/modules/elastic.py:25-33 | Returns true exactly when the name existed and the delete did not raise; then only that name is removed; otherwise nothing changes |
| BotRunner.CallbackData | bot_runner.py:66 | The callback data is `@@_` followed by the token unchanged |
| BotRunner.CallbackRoundTrip | bot_runner.py:66-72 | Decoding the callback data of a token without `@@_` gives back the token |
| BotRunner.UuidRoundTrip | bot_runner.py:42-72 | The text form of a UUID (hex digits and dashes) always survives the round trip |
| BotRunner.DeleteByQueryRemovesExactly | bot_runner.py:76-78 | The delete-by-query leaves no fragment of that document and owner; every other fragment keeps all its copies |
| BotRunner.DeleteByQueryShrinks | bot_runner.py:76-78 | The delete never adds fragments, and it changes the store exactly when some fragment matches |
| BotRunner.DeleteByQueryKeepsOrder | bot_runner.py:76-78 | What the delete leaves is a subsequence of the store: the remaining fragments keep their order |
| BotRunner.CollectHits | bot_runner.py:52-59 | Scrolling stops at the first empty page; the hits are the earlier pages in order; with an empty first page there is no scroll call |
| BotRunner.DistinctDocsBounded | bot_runner.py:61-62 | There are never more distinct `(file_name, doc_id)` pairs than hits |
| BotRunner.DuplicateAddsNothing | bot_runner.py:61-66 | A hit whose pair was already seen adds no document, so no second button |
| BotRunner.RegisterSpec | bot_runner.py:64-65 | With fresh, distinct ids, the listing adds exactly those ids, each mapped to its document's id, and keeps every earlier entry |
| BotRunner.Enumerate | bot_runner.py:64 | Walking a set visits each element exactly once |
| BotRunner.Bot.StartCommand | bot_runner.py:30-39 | After a successful delete the store is empty and the replies report a clear; otherwise the store is unchanged and the replies report a creation. If the create raises, the handler stops without "Elastic is ready" and the index is left as the delete made it; otherwise the bot's index exists afterwards. No other index changes |
| BotRunner.Bot.SaveToken | bot_runner.py:42-45 | Returns the fresh id, adds exactly that key mapped to the token, and keeps all other entries |
| BotRunner.Bot.ListDocs | bot_runner.py:61-66 | One button per distinct document (each exactly once), showing its file name and `@@_` + its own fresh token; the map gains exactly those tokens |
| BotRunner.Bot.IssueButtons | bot_runner.py:64-66 | Button i shows the i-th file name and carries the i-th fresh token, and the map is extended entry by entry |
| BotRunner.Bot.DocHandler | bot_runner.py:48-67 | The hits are the pages before the first empty one; one button per distinct pair among them; tokens are registered; the reply is "Choose which to remove:" |
| BotRunner.Bot.WhatToRemove | bot_runner.py:70-80 | A known token with a non-empty id issues exactly one delete for that document and the caller. Only if it does not raise is the token removed, with the store losing exactly the matching fragments. Otherwise nothing is issued or changed |
| BotRunner.Bot.Upload | bot_runner.py:87-103 | Replies "accepted", then writes the pages in order up to the failing one, then replies "loaded", or the error text when a write raised |
| BotRunner.Bot.WritePages | bot_runner.py:97-101 | The page loop writes the pages before the first failing one, in order, and appends their fragments to the store |
| BotRunner.Bot.WritePage | bot_runner.py:98-101 | One page builds its metadata, runs `text_splitter` and appends the resulting fragments to the store |
| BotRunner.Bot.Query | bot_runner.py:104-117 | A raising search replies its message. Otherwise it searches the lower-cased text; an empty result replies "not found" with no GPT call; else one fragment call per result in order, then exactly one summary, which is the reply |
| BotRunner.PagesWritten | bot_runner.py:97-101 | All pages are written unless a write fails; then the count is the failing page's index, so exactly the pages before it are written |
| BotRunner.Answers | bot_runner.py:110-114 | One answer per retrieved document, in order: the i-th is the fragment prompt on the i-th document and the question |
| BotRunner.PagesFragmentsSpec | bot_runner.py:97-101 | One write per page, in page order, each the fragments of that page |
| BotRunner.UploadedIsFlattenedWrites | bot_runner.py:97-101 | What the upload stores is the page writes concatenated in order |
| BotRunner.WrittenForSomePage | bot_runner.py:97-101 | Every stored fragment of an upload was written for one of its pages |
| BotRunner.PageFragmentTagged | bot_runner.py:98-100 | A fragment written for a page has the uploader as owner, the file id, the file name and that page's number, and its text is a chunk of the normalised page text |

## Left out

- Chat transport: aiogram dispatch, polling, keyboards as objects, the
  callback filter `F.data.startswith('@@_')`, `get_file` and `download_file`.
  Replies are returned as a trace of strings.
- The PDF loader: its pages (the text and `metadata['page']`) are an input.
  A failure before the page loop (`get_file`, the download or the loader
  raising) is not modelled. With at least one page it matches
  `failAt == Some(0)`: nothing is written and the error text is the reply.
  With no pages the model has no such case and replies "loaded".
- The Elasticsearch client. Four things are not modelled:
  - the owner `term` query of the first search in `doc_handler` (the pages
    are an input);
  - scroll cursor expiry;
  - partial failure of `delete_by_query`;
  - `es.search` or `es.scroll` raising in `doc_handler` (missing index,
    lost connection). Neither call is guarded, so the exception leaves the
    handler. `temp_storage` is only written after the scroll loop, so such a
    raise sends no list and changes nothing; `DocHandler` covers only scrolls
    that succeed.

  The delete's `match` clauses are modelled as exact equality of document id
  and owner.
- The contents of the index are not linked to the set of index names: creating an index does not empty the store.
- `RecursiveCharacterTextSplitter` (chunk size 1250, overlap 125) is the abstract `split`. BM25 scoring is the abstract `search`. Relevance scores are `real`.
- `src/modules/gpt_handler.py`: both calls catch every exception and return a fallback string, so they are total functions here; prompts and the OpenAI client are not modelled.
- `src/modules/whisper_handler.py` and `src/configs/settings.py`: model inference and environment configuration. The batch size `emd_count_docs` is not defined in `settings.py`, so it is the parameter `k > 0`.
- UUID generation: fresh, distinct ids are given as parameters.
- Unicode lower-casing is the abstract map `lower`. The facts about it are preconditions of the lemmas that need them: it is idempotent, and it maps no other character to markup or whitespace. Python's `str.lower()` is not a per-character map: 'İ' (U+0130) becomes two code points, and a final 'Σ' lowers according to its context. So `Text.Lower`'s "same length" holds only of the abstraction.
- Float vectors are the opaque type `V`. asyncio interleaving is left out: each handler runs atomically.
- Logging `print` calls and log messages.
- `aadd_documents` writes a page's fragments all at once or not at all; a partial write of one page is not modelled. `str(e)` is the parameter `errorText` (or `searchError`).
- Failures other than the search in the query branch, such as a missing `message.text`, are not modelled.
- BotRunner.CollectHits, BotRunner.Bot.DocHandler: they require that the page sequence contains an empty page, so only terminating scrolls are modelled; DocHandler also requires that enough fresh ids are supplied.
- The base embedding class's internal dispatch is not modelled. `baseQuery`, `baseAQuery` and `baseA` are independent of the subclass. If the library's `embed_query` or `aembed_*` called back into the overridden `embed_documents` or `embed_query`, the text would get a second prefix, and the model does not capture that. The library is not part of this model.
- Embedding.EmbedQuery: states only which text the base model receives. The model is abstract, so nothing more can be said; the same holds for Embedding.AEmbedQuery and Embedding.AEmbedDocuments.
- The upload's tagging property is stated in two steps, BotRunner.WrittenForSomePage and BotRunner.PageFragmentTagged, rather than as one lemma.
