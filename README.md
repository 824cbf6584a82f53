# ArXivToday-Lark paper pipeline, in Dafny

This project models the logic of the ArXivToday-Lark digest pipeline. The pipeline
fetches new arXiv papers per category and turns each result into a paper record. It
removes papers repeated across categories and keeps those whose abstract contains a
keyword. An optional language-model judgement filters them further. Papers already
delivered are dropped, and the new batch goes to the front of the JSON store. Abstracts
can be translated by a language model. Finally, a Lark (Feishu) card payload listing
the papers is built for the team's webhook.

Modules, one per source file plus three helpers:

- `ArxivPaper` (`arxiv_paper.dfy`) covers `arxiv_paper.py`. It holds the paper record, the
  normalisation of one search result, cross-category de-duplication (a method with its
  seen-set loop), the keyword filter (a method), the language-model filter (a method with
  an oracle parameter), history de-duplication and the store prepend (functions), and the
  in-place abstract translation (a method over an array).
- `LarkPost` (`lark_post.dfy`) covers `lark_post.py`. It builds `table_rows`, `paper_list`,
  the card template and the message envelope, which together make the single request
  `post_to_lark_webhook` sends.
- `Utils` (`utils.dfy`) covers `validate_llm_server_config` in `utils.py`.
- `PyStr` (`py_str.dfy`) models the Python string builtins the code relies on:
  `str.isspace`, `str.lower` (ASCII only), `str.find`, `str.replace` and `str.split()`.
  The lemma `SplitIsWords` shows that the tokens of `split()` are exactly the
  whitespace-delimited words of the text.
- `Seqs` (`seqs.dfy`) holds the order-preserving `Filter` shared by every
  `if cond: results.append(x)` loop. Its lemmas give the kept positions and membership.
- `Wrappers` (`wrappers.dfy`) holds `Option` and `Result`.

Modelling choices:

- Paper records are a datatype. `comment` has three states: the key is missing, the key
  holds `null`, or the key holds a string. The notifier indexes that key directly, so a
  missing key is a `KeyError`. `zh_abstract` is only read with `.get(..., None)`, so it is
  an `Option`.
- The store file is a value of type `Option<seq<Paper>>`. `None` means the file is missing
  or empty. `Some(records)` is the parsed array. Prepending returns the array that is
  written back.
- The two language-model calls (`is_paper_match` and `translate_abstract`) are function
  parameters: arrow-typed oracles already bound to the server configuration.
- `post_to_lark_webhook` raises `KeyError('comment')` on a record without that key. This is
  modelled as a `Failure` result, not as a precondition.
- Today's date and the webhook settings (`webhook_url`, `template_id`,
  `template_version_name`) are parameters.

Where the repository's tests describe other behaviour, the model follows the code; the
code also behaves as follows:

- There is no batching. `post_to_lark_webhook` builds one payload with every paper and
  posts it once, even when the list is empty (lark_post.py:62 is unconditional). The
  batches of 20, the batch tag and "no call for 0 papers" appear only in
  `test_lark_post_batching.py`.
- The card's `abstract` field is always the original abstract. The translation sits beside
  it in `zh_abstract`; nothing prefers it.
- The keyword filter searches the abstract only, never the title. It compares whole
  whitespace-separated tokens, so punctuation stays attached to a word. A leading `-` is an
  ordinary character, not an exclusion marker.
- The id is cut before the first `v` anywhere in the short id, not only before a trailing
  version suffix.

## Model

| member | source | states |
|---|---|---|
| `PyStr.Find` | arxiv_paper.py:31 | `find` returns -1 iff the character is absent; otherwise it returns the position of its first occurrence |
| `PyStr.Replace` | arxiv_paper.py:38 | `replace` of one character keeps the length and substitutes exactly the matching positions |
| `PyStr.Lower` | arxiv_paper.py:79-81 | lower-casing keeps the length and lowers each character on its own |
| `PyStr.SplitIsWords` | arxiv_paper.py:81 | a string is a token of `split()` iff it occurs as a non-empty, whitespace-free run bounded by whitespace or the ends of the text |
| `ArxivPaper.NormaliseId` | arxiv_paper.py:30-33 | the id is a prefix of the short id with no `v`; it is the whole short id when there is no `v`, and otherwise the character right after it is the first `v` |
| `ArxivPaper.NormaliseIdIdempotent` | arxiv_paper.py:30-33 | normalising an id a second time changes nothing |
| `ArxivPaper.NormaliseIdCutsAtFirstV` | arxiv_paper.py:30-33 | for any `v`-free prefix, `prefix + "v" + rest` normalises to `prefix`, whatever `rest` is |
| `ArxivPaper.NormaliseIdNewStyle` | arxiv_paper.py:30-33 | `2401.01234v2` becomes `2401.01234` |
| `ArxivPaper.NormaliseIdOldStyle` | arxiv_paper.py:30-33 | the old-style `solv-int/9901001v1` becomes `sol`: any `v` ends the id |
| `ArxivPaper.NormaliseAbstract` | arxiv_paper.py:38 | the abstract keeps its length, has no line break, and every other character stays in place |
| `ArxivPaper.FromResult` | arxiv_paper.py:35-41 | title, url and date are copied; the id and abstract are normalised; the record has no `comment` key and no `zh_abstract` |
| `ArxivPaper.FromResultWithComment` | arxiv_paper.py:35-41 | the corrected record: as `FromResult`, but the `comment` key is always present |
| `ArxivPaper.DedupByIdKeepsEveryId` | arxiv_paper.py:55-61 | the de-duplicated list has exactly the ids of the input |
| `ArxivPaper.DedupByIdDistinct` | arxiv_paper.py:55-61 | no two papers of the de-duplicated list share an id |
| `ArxivPaper.DedupByIdFirstOccurrences` | arxiv_paper.py:55-61 | the output is the input taken at increasing positions, and a position is taken iff it holds the first paper with its id |
| `ArxivPaper.DedupByIdNoOpOnDistinct` | arxiv_paper.py:55-61 | input with pairwise distinct ids is returned unchanged |
| `ArxivPaper.DedupByIdIdempotent` | arxiv_paper.py:55-61 | de-duplicating twice equals de-duplicating once |
| `ArxivPaper.DeduplicateAcrossCategories` | arxiv_paper.py:47-61 | the seen-set loop returns the first paper of each id in input order; its ids are distinct and equal the input's |
| `ArxivPaper.KeywordSetHit` | arxiv_paper.py:79-81 | the source's test, that the lowered keyword set meets the token set, is non-empty iff some lowered keyword is a token of the lowered abstract |
| `ArxivPaper.FilterPapersByKeyword` | arxiv_paper.py:64-84 | the loop returns, in order, exactly the papers that pass the keyword test |
| `ArxivPaper.MatchesKeywordAsWord` | arxiv_paper.py:81 | a paper passes iff some lowered keyword occurs in the lowered abstract as a whole whitespace-delimited word |
| `ArxivPaper.KeywordFilterMeaning` | arxiv_paper.py:79-83 | a paper is kept iff it is in the input and some keyword is a whole word of its abstract; the kept papers are the input at increasing positions, namely at exactly the positions whose paper matches |
| `ArxivPaper.KeywordFilterIgnoresTitle` | arxiv_paper.py:81 | changing the title never changes whether a paper is kept |
| `ArxivPaper.KeywordFilterEmptyList` | arxiv_paper.py:79-83 | an empty keyword list keeps no paper |
| `ArxivPaper.KeywordWithSpaceNeverMatches` | arxiv_paper.py:79-81 | an empty keyword, or one containing whitespace, matches no abstract |
| `ArxivPaper.KeywordMinusIsLiteral` | arxiv_paper.py:79-81 | the keyword `-x` matches the token `-x`, and listing `-x` beside `x` still keeps an abstract `x`; there is no exclusion syntax |
| `ArxivPaper.KeywordPunctuationBlocks` | arxiv_paper.py:79-81 | the abstract `safety,` does not match the keyword `safety` |
| `ArxivPaper.FilterPapersUsingLlm` | arxiv_paper.py:87-99 | the loop returns, in order, the papers the model oracle accepts |
| `ArxivPaper.LlmFilterKeepsExactlyMatches` | arxiv_paper.py:95-99 | a paper is kept iff it is in the input and the oracle accepts it; the kept papers are the input at the increasing positions the oracle accepts |
| `ArxivPaper.DeduplicateAgainstHistory` | arxiv_paper.py:102-119 | a missing or empty store returns the input unchanged; otherwise it returns, in order, exactly the papers whose id is not among the stored ids, taken at exactly those positions, so repeated input records are all kept |
| `ArxivPaper.HistoryDedupKeepsInputDuplicates` | arxiv_paper.py:109-119 | when no input id is stored, the input comes back whole, including repeats within it |
| `ArxivPaper.HistoryDedupExample` | arxiv_paper.py:109-116 | with `A` stored, the input `[A, B]` yields `[B]` |
| `ArxivPaper.PrependToStore` | arxiv_paper.py:122-139 | the written array is the new batch followed by every stored record, unchanged and in order; the stored part is `[]` when the file is missing or empty |
| `ArxivPaper.PrependTwice` | arxiv_paper.py:128-139 | writing `[x]` and then `[y]` to a missing store leaves `[y, x]` |
| `ArxivPaper.WrittenPapersAreNotRedelivered` | arxiv_paper.py:109-139 | after a write, history de-duplication drops every paper whose id was in the written batch or already stored |
| `ArxivPaper.Translated` | arxiv_paper.py:150-154 | only `zh_abstract` changes; it holds the oracle's text when that text is non-empty, and `null` otherwise |
| `ArxivPaper.TranslatedAllAt` | arxiv_paper.py:149-155 | translating a list keeps its length and order, and position i holds the translation of record i |
| `ArxivPaper.TranslatedAllIdempotent` | arxiv_paper.py:149-155 | for a fixed oracle, translating an already translated list again changes nothing |
| `ArxivPaper.TranslateAbstracts` | arxiv_paper.py:142-155 | the records are updated in place to their translations, in order, and the same list object is returned |
| `LarkPost.MarkdownLink` | lark_post.py:23 | the table url is `[u](u)`: length 2\|u\|+4, with `u` as both the text and the target |
| `LarkPost.MarkdownLinkRoundTrip` | lark_post.py:23 | the URL can be recovered from its table link, so distinct URLs give distinct links |
| `LarkPost.CommentText` | lark_post.py:36 | the comment shown is the comment string, or `""` when it is `null` or empty |
| `LarkPost.TableRowsFrom` | lark_post.py:17-26 | one row per paper, in order; row i carries counter+i, the paper's title, id and date, and its url as a Markdown link |
| `LarkPost.PaperListFrom` | lark_post.py:27-39 | fails with `KeyError('comment')` iff some paper lacks the key; otherwise one entry per paper, in order, numbered from the counter, with the fields copied |
| `LarkPost.BuildRequest` | lark_post.py:10-62 | one request to the webhook URL, with content type `application/json` and the interactive template card; it carries the date, the tag unchanged, `total_paper` equal to the number of papers and both lists numbered from 1; it fails iff some paper lacks `comment` |
| `LarkPost.CardListsEveryPaperInOrder` | lark_post.py:17-49 | both lists have one entry per paper with counters 1..n, fields copied from the paper at the same position, and the original abstract next to the translation |
| `LarkPost.EmptyListStillPosts` | lark_post.py:41-62 | an empty paper list still builds exactly one request, with total 0 and empty lists |
| `LarkPost.PaperListConcat` | lark_post.py:27-39 | the entries for `a + b` are the entries for `a` followed by those for `b`, numbered from where `a` stopped; counters never reset |
| `LarkPost.FetchedPapersCannotBePosted` | lark_post.py:36 | a list holding any record built by the fetcher makes card construction raise `KeyError('comment')` |
| `LarkPost.CommentedPapersArePosted` | lark_post.py:36 | records that carry the result's comment always build a card, and each entry shows that comment or `""` |
| `Utils.FirstMissing` | utils.py:20-23 | the fields are checked in order; the index returned is the first missing field, or the end when none is missing |
| `Utils.ValidateLlmServerConfig` | utils.py:16-31 | fails iff `model`, `base_url` or `api_key` is missing, naming the first missing one; otherwise the result has exactly those three keys, `model` and `base_url` copied, and `api_key` copied when truthy or `"ollama"` otherwise, so it is always truthy |
| `Utils.ValidateIdempotent` | utils.py:24-31 | validating a validated configuration returns it unchanged |
| `Utils.NullValuesPassPresenceCheck` | utils.py:22-30 | keys present with `null` pass the presence check; `model` and `base_url` stay `null` and `api_key` becomes `"ollama"` |

## Left out

- The arXiv client is not modelled: the query, paging, the request delay and iteration over results (arxiv_paper.py:19-28). The model starts from one `SearchResult` with an ISO date already computed, because `published.date().isoformat()` is a library conversion.
- The language-model HTTP calls are not modelled: `get_llm_response`, and `is_paper_match` and `translate_abstract` from the `llm` module, which is not part of this model. They are oracle parameters, and the configuration they take is bound inside the oracle.
- File existence checks, reads, writes and JSON parsing and dumping are not modelled (arxiv_paper.py:109-113, 128-139). The store is passed in and the written array is returned. A corrupt store file, which makes the source raise, is not modelled.
- The HTTP POST, the status-code branches and the printing in `post_to_lark_webhook` are not modelled (lark_post.py:62-69). `datetime.date.today()` is a parameter.
- `main.py` orchestration, the module-level configuration globals, reading `paper_to_hunt.md`, the commented-out scheduler and `load_config` (YAML file input) are not modelled.
- tqdm progress bars are not modelled.
- The webhook settings are a typed record, so the `KeyError` for a missing `webhook_url`, `template_id` or `template_version_name` is not modelled.
- Configuration values cover null, booleans, integers, strings, lists and dicts. YAML floats and their truthiness are not modelled.
- PyStr.Lower: folds ASCII letters only, whereas Python's `str.lower` folds all of Unicode.
- The language-model oracles (`is_paper_match`, `translate_abstract`) are deterministic functions of their input. A reply that varies between calls is not captured, nor a transient failure on a repeat call, which in the source resets an earlier `zh_abstract` to `None` (arxiv_paper.py:152-154). `ArxivPaper.TranslatedAllIdempotent` holds only for such a fixed oracle.
- ArxivPaper.TranslateAbstracts: the list is an array of record values, so two list positions holding the same dict object are not tracked as aliases. For a fixed oracle this changes nothing, because the oracle reads only the abstract and the abstract never changes. With an oracle whose replies vary, an aliased dict would keep the last reply, and the model does not capture that.

## Findings

| source | as written | input that shows it | evidently intended | confidence | as-written member | corrected member |
|---|---|---|---|---|---|---|
| arxiv_paper.py:35-41 | the fetched record has no `comment` key, while lark_post.py:36 indexes `paper['comment']` directly | any fetched result reaching `post_to_lark_webhook`, such as short id `2401.01234v1`, raises `KeyError('comment')` | store the result's comment, `null` when it has none, as the batching test's records do | high; not executed | `LarkPost.FetchedPapersCannotBePosted` | `ArxivPaper.FromResultWithComment` |
