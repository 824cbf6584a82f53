/**
  The paper-list stages of the pipeline (arxiv_paper.py): normalising one
  search result into a paper record, de-duplicating across categories,
  the keyword filter, the language-model filter, de-duplicating against the
  stored history, prepending to the store and translating abstracts.

  The store file is passed in and returned as a value: `None` stands for a
  file that is missing or empty, `Some(records)` for the parsed JSON array.
  The two language-model calls are arrow-typed oracle parameters, already
  bound to the server configuration.
*/
module ArxivPaper {
  import opened Wrappers
  import opened Seqs
  import opened PyStr

  /** A dictionary key that may be missing, present with `null`, or present with a value. */
  datatype Slot<T> = Absent | Null | Present(value: T)

  /** A paper record. `comment` keeps the difference between a missing key and `null`,
      because the notifier indexes that key directly; `zh_abstract` is only ever read with
      a default, so a missing key and `null` are both `None`. */
  datatype Paper = Paper(
    title: string,
    id: string,
    abstractText: string,
    url: string,
    published: string,
    comment: Slot<string>,
    zhAbstract: Option<string>)

  /** What the search client yields for one result: the short id still carries its version,
      the summary its line breaks; the publication date is already an ISO date. */
  datatype SearchResult = SearchResult(
    title: string,
    shortId: string,
    summary: string,
    entryId: string,
    publishedDate: string,
    comment: Option<string>)

  // ---------------------------------------------------------------------------
  // Normalising one search result

  /** The id cut before its first `v`, wherever that `v` is. */
  function NormaliseId(shortId: string): (id: string)
    ensures 'v' !in id
    ensures |id| <= |shortId| && id == shortId[..|id|]
    ensures 'v' !in shortId ==> id == shortId
    ensures 'v' in shortId ==> |id| < |shortId| && shortId[|id|] == 'v'
  {
    var versionPos := Find(shortId, 'v');
    if versionPos != -1 then shortId[..versionPos] else shortId
  }

  /** Cutting at the first `v` a second time changes nothing. */
  lemma NormaliseIdIdempotent(shortId: string)
    ensures NormaliseId(NormaliseId(shortId)) == NormaliseId(shortId)
  {
  }

  /** The id is exactly the text before the first `v`, whatever follows it. */
  lemma {:induction false} NormaliseIdCutsAtFirstV(prefix: string, rest: string)
    requires 'v' !in prefix
    ensures NormaliseId(prefix + "v" + rest) == prefix
  {
    var s := prefix + "v" + rest;
    assert s[|prefix|] == 'v';
    assert forall i :: 0 <= i < |prefix| ==> s[i] == prefix[i] && s[i] != 'v';
    assert |NormaliseId(s)| == |prefix|;
    assert s[..|prefix|] == prefix;
  }

  /** A new-style identifier loses exactly its version suffix. */
  lemma NormaliseIdNewStyle()
    ensures NormaliseId("2401.01234v2") == "2401.01234"
  {
    NormaliseIdCutsAtFirstV("2401.01234", "2");
    assert "2401.01234" + "v" + "2" == "2401.01234v2";
  }

  /** Any `v`, not only a version suffix, ends the id: an old-style identifier is cut short. */
  lemma NormaliseIdOldStyle()
    ensures NormaliseId("solv-int/9901001v1") == "sol"
  {
    NormaliseIdCutsAtFirstV("sol", "-int/9901001v1");
    assert "sol" + "v" + "-int/9901001v1" == "solv-int/9901001v1";
  }

  /** The summary with every line break turned into a space. */
  function NormaliseAbstract(summary: string): (text: string)
    ensures |text| == |summary|
    ensures '\n' !in text
    ensures forall i :: 0 <= i < |summary| && summary[i] != '\n' ==> text[i] == summary[i]
    ensures forall i :: 0 <= i < |summary| && summary[i] == '\n' ==> text[i] == ' '
  {
    Replace(summary, '\n', ' ')
  }

  /** The record built for one search result. It carries no `comment` key and no `zh_abstract` key. */
  function FromResult(r: SearchResult): (p: Paper)
    ensures p.title == r.title && p.url == r.entryId && p.published == r.publishedDate
    ensures p.id == NormaliseId(r.shortId) && 'v' !in p.id
    ensures p.abstractText == NormaliseAbstract(r.summary) && '\n' !in p.abstractText
    ensures p.comment == Absent && p.zhAbstract == None
  {
    Paper(r.title, NormaliseId(r.shortId), NormaliseAbstract(r.summary), r.entryId, r.publishedDate, Absent, None)
  }

  /** The record the rest of the pipeline needs: as `FromResult`, but with the result's comment
      stored under the `comment` key (`null` when the result has none). */
  function FromResultWithComment(r: SearchResult): (p: Paper)
    ensures p == FromResult(r).(comment := if r.comment.Some? then Present(r.comment.value) else Null)
    ensures p.comment != Absent
  {
    FromResult(r).(comment := if r.comment.Some? then Present(r.comment.value) else Null)
  }

  // ---------------------------------------------------------------------------
  // De-duplicating across categories

  function Ids(papers: seq<Paper>): set<string>
  {
    set p | p in papers :: p.id
  }

  predicate DistinctIds(papers: seq<Paper>)
  {
    forall i, j :: 0 <= i < j < |papers| ==> papers[i].id != papers[j].id
  }

  /** Position `i` holds the first paper with its id. */
  predicate IsFirstOccurrence(papers: seq<Paper>, i: int)
  {
    0 <= i < |papers| && papers[i].id !in Ids(papers[..i])
  }

  /** The first paper of each id, in input order: what the loop with a seen-set builds. */
  function DedupById(papers: seq<Paper>): seq<Paper>
  {
    if papers == [] then []
    else
      var kept := DedupById(papers[..|papers| - 1]);
      var last := papers[|papers| - 1];
      if last.id in Ids(kept) then kept else kept + [last]
  }

  /** The input positions `DedupById` keeps. */
  ghost function DedupIndices(papers: seq<Paper>): seq<int>
  {
    if papers == [] then []
    else
      var kept := DedupById(papers[..|papers| - 1]);
      var last := papers[|papers| - 1];
      if last.id in Ids(kept) then DedupIndices(papers[..|papers| - 1])
      else DedupIndices(papers[..|papers| - 1]) + [|papers| - 1]
  }

  lemma IdsSnoc(papers: seq<Paper>, p: Paper)
    ensures Ids(papers + [p]) == Ids(papers) + {p.id}
  {
  }

  /** Every id of the input survives de-duplication, and no other id appears. */
  lemma {:induction false} DedupByIdKeepsEveryId(papers: seq<Paper>)
    ensures Ids(DedupById(papers)) == Ids(papers)
  {
    if papers != [] {
      var init := papers[..|papers| - 1];
      var last := papers[|papers| - 1];
      DedupByIdKeepsEveryId(init);
      assert papers == init + [last];
      IdsSnoc(init, last);
      IdsSnoc(DedupById(init), last);
    }
  }

  /** No two papers of the output share an id. */
  lemma {:induction false} DedupByIdDistinct(papers: seq<Paper>)
    ensures DistinctIds(DedupById(papers))
  {
    if papers != [] {
      var init := papers[..|papers| - 1];
      var kept := DedupById(init);
      var last := papers[|papers| - 1];
      DedupByIdDistinct(init);
      if last.id !in Ids(kept) {
        assert forall i :: 0 <= i < |kept| ==> kept[i] in kept;
      }
    }
  }

  /** Dropping the last paper does not change which earlier positions are first occurrences. */
  lemma FirstOccurrenceInInit(papers: seq<Paper>, i: int)
    requires 0 <= i < |papers| - 1
    ensures IsFirstOccurrence(papers, i) <==> IsFirstOccurrence(papers[..|papers| - 1], i)
  {
    assert papers[..|papers| - 1][..i] == papers[..i];
  }

  lemma {:induction false} DedupByIdSubsequence(papers: seq<Paper>)
    ensures IsSubsequenceAt(DedupById(papers), papers, DedupIndices(papers))
  {
    if papers != [] {
      var init := papers[..|papers| - 1];
      DedupByIdSubsequence(init);
      assert forall i :: 0 <= i < |init| ==> papers[i] == init[i];
    }
  }

  lemma {:induction false} DedupIndicesAreFirstOccurrences(papers: seq<Paper>)
    ensures forall i :: 0 <= i < |papers| ==> (i in DedupIndices(papers) <==> IsFirstOccurrence(papers, i))
  {
    if papers != [] {
      var init := papers[..|papers| - 1];
      DedupIndicesAreFirstOccurrences(init);
      DedupByIdKeepsEveryId(init);
      DedupByIdSubsequence(init);
      forall i | 0 <= i < |init|
        ensures IsFirstOccurrence(papers, i) <==> IsFirstOccurrence(init, i)
      {
        FirstOccurrenceInInit(papers, i);
      }
      assert papers[..|papers| - 1] == init;
    }
  }

  /** The output is the subsequence of the input at the first occurrence of each id, and at
      nothing else. */
  lemma DedupByIdFirstOccurrences(papers: seq<Paper>)
    ensures IsSubsequenceAt(DedupById(papers), papers, DedupIndices(papers))
    ensures forall i :: 0 <= i < |papers| ==> (i in DedupIndices(papers) <==> IsFirstOccurrence(papers, i))
  {
    DedupByIdSubsequence(papers);
    DedupIndicesAreFirstOccurrences(papers);
  }

  /** Input whose ids are already distinct passes through unchanged. */
  lemma {:induction false} DedupByIdNoOpOnDistinct(papers: seq<Paper>)
    requires DistinctIds(papers)
    ensures DedupById(papers) == papers
  {
    if papers != [] {
      var init := papers[..|papers| - 1];
      var last := papers[|papers| - 1];
      DedupByIdNoOpOnDistinct(init);
      assert init + [last] == papers;
    }
  }

  /** De-duplicating twice is de-duplicating once. */
  lemma DedupByIdIdempotent(papers: seq<Paper>)
    ensures DedupById(DedupById(papers)) == DedupById(papers)
  {
    DedupByIdDistinct(papers);
    DedupByIdNoOpOnDistinct(DedupById(papers));
  }

  /** `deduplicate_papers_across_categories`: one pass with a set of seen ids beside the output list. */
  method DeduplicateAcrossCategories(papers: seq<Paper>) returns (deduplicated: seq<Paper>)
    ensures deduplicated == DedupById(papers)
    ensures DistinctIds(deduplicated) && Ids(deduplicated) == Ids(papers)
  {
    var papersId: set<string> := {};
    deduplicated := [];
    for i := 0 to |papers|
      invariant deduplicated == DedupById(papers[..i])
      invariant papersId == Ids(deduplicated)
    {
      assert papers[..i + 1][..i] == papers[..i];
      if papers[i].id !in papersId {
        IdsSnoc(deduplicated, papers[i]);
        papersId := papersId + {papers[i].id};
        deduplicated := deduplicated + [papers[i]];
      }
    }
    assert papers[..|papers|] == papers;
    DedupByIdDistinct(papers);
    DedupByIdKeepsEveryId(papers);
  }

  // ---------------------------------------------------------------------------
  // Keyword filter

  /** `set(abstract.lower().split())`. */
  function TokenSet(abstractText: string): set<string>
  {
    set t | t in Split(Lower(abstractText))
  }

  /** Some lower-cased keyword is a whitespace-separated token of the lower-cased abstract. */
  predicate MatchesKeyword(p: Paper, keywordList: seq<string>)
  {
    exists k :: k in keywordList && Lower(k) in Split(Lower(p.abstractText))
  }

  function KeywordMatcher(keywordList: seq<string>): Paper -> bool
  {
    (p: Paper) => MatchesKeyword(p, keywordList)
  }

  /** The papers the keyword filter keeps, in input order. */
  function KeywordFilter(papers: seq<Paper>, keywordList: seq<string>): seq<Paper>
  {
    Filter(papers, KeywordMatcher(keywordList))
  }

  /** The set intersection the source tests is non-empty exactly when some keyword matches. */
  lemma KeywordSetHit(p: Paper, keywordList: seq<string>)
    ensures (set k | k in keywordList :: Lower(k)) * TokenSet(p.abstractText) != {}
        <==> MatchesKeyword(p, keywordList)
  {
    var keywordSet := set k | k in keywordList :: Lower(k);
    var hit := keywordSet * TokenSet(p.abstractText);
    if MatchesKeyword(p, keywordList) {
      var k :| k in keywordList && Lower(k) in Split(Lower(p.abstractText));
      assert Lower(k) in hit;
    }
    if hit != {} {
      var t :| t in hit;
      var k :| k in keywordList && Lower(k) == t;
      assert t in Split(Lower(p.abstractText));
    }
  }

  /** `filter_papers_by_keyword`: lower-case the keywords into a set once, then keep each paper
      whose lower-cased abstract tokens meet that set. */
  method FilterPapersByKeyword(papers: seq<Paper>, keywordList: seq<string>) returns (results: seq<Paper>)
    ensures results == KeywordFilter(papers, keywordList)
  {
    var keywordSet := set k | k in keywordList :: Lower(k);
    results := [];
    for i := 0 to |papers|
      invariant results == KeywordFilter(papers[..i], keywordList)
    {
      assert papers[..i + 1] == papers[..i] + [papers[i]];
      FilterSnoc(papers[..i], papers[i], KeywordMatcher(keywordList));
      KeywordSetHit(papers[i], keywordList);
      if keywordSet * TokenSet(papers[i].abstractText) != {} {
        results := results + [papers[i]];
      }
    }
    assert papers[..|papers|] == papers;
  }

  /** Some lower-cased keyword occurs in the lower-cased abstract as a whole whitespace-delimited word. */
  ghost predicate KeywordIsWord(p: Paper, keywordList: seq<string>)
  {
    exists k, i :: k in keywordList && WordAt(Lower(p.abstractText), i, Lower(k))
  }

  lemma MatchesKeywordAsWord(p: Paper, keywordList: seq<string>)
    ensures MatchesKeyword(p, keywordList) <==> KeywordIsWord(p, keywordList)
  {
    forall k | k in keywordList
      ensures Lower(k) in Split(Lower(p.abstractText)) <==> exists i :: WordAt(Lower(p.abstractText), i, Lower(k))
    {
      SplitIsWords(Lower(p.abstractText), Lower(k));
    }
  }

  /** A paper is kept iff some lower-cased keyword occurs in its lower-cased abstract as a whole
      whitespace-delimited word; the kept papers are the input's, at increasing positions. */
  lemma KeywordFilterMeaning(papers: seq<Paper>, keywordList: seq<string>)
    ensures forall p :: p in KeywordFilter(papers, keywordList) <==> p in papers && KeywordIsWord(p, keywordList)
    ensures IsSubsequenceAt(KeywordFilter(papers, keywordList), papers, KeptIndices(papers, KeywordMatcher(keywordList)))
    ensures forall i :: 0 <= i < |papers| ==>
      (i in KeptIndices(papers, KeywordMatcher(keywordList)) <==> KeywordIsWord(papers[i], keywordList))
  {
    FilterMembership(papers, KeywordMatcher(keywordList));
    FilterIsSubsequence(papers, KeywordMatcher(keywordList));
    forall p | p in papers
      ensures MatchesKeyword(p, keywordList) <==> KeywordIsWord(p, keywordList)
    {
      MatchesKeywordAsWord(p, keywordList);
    }
  }

  /** Only the abstract is searched: changing a paper's title never changes the decision. */
  lemma KeywordFilterIgnoresTitle(p: Paper, title: string, keywordList: seq<string>)
    ensures MatchesKeyword(p.(title := title), keywordList) <==> MatchesKeyword(p, keywordList)
  {
  }

  /** An empty keyword list keeps nothing. */
  lemma KeywordFilterEmptyList(papers: seq<Paper>)
    ensures KeywordFilter(papers, []) == []
  {
    FilterNone(papers, KeywordMatcher([]));
  }

  /** A keyword that contains whitespace, or is empty, can never equal a token. */
  lemma KeywordWithSpaceNeverMatches(keyword: string, abstractText: string)
    requires keyword == [] || exists i :: 0 <= i < |keyword| && IsSpace(keyword[i])
    ensures Lower(keyword) !in Split(Lower(abstractText))
  {
  }

  /** A leading `-` marks no exclusion: `-x` is matched as the literal token `-x`, and listing
      `-x` beside `x` does not drop a paper whose abstract is `x`. */
  lemma KeywordMinusIsLiteral(p: Paper)
    requires p.abstractText == "-x"
    ensures MatchesKeyword(p, ["-x"])
    ensures MatchesKeyword(p.(abstractText := "x"), ["x", "-x"])
  {
    LowerOfLowercase("-x");
    LowerOfLowercase("x");
    SplitOfOneWord("-x");
    SplitOfOneWord("x");
  }

  /** The lower-cased abstract `safety,` is the single token `safety,`. */
  lemma SplitSafetyComma()
    ensures Split(Lower("safety,")) == ["safety,"]
  {
    var text := "safety,";
    assert forall i :: 0 <= i < |text| ==> 'a' <= text[i] <= 'z' || text[i] == ',';
    LowerOfLowercase(text);
    SplitOfOneWord(text);
  }

  /** The keyword `safety` is not the token `safety,`. */
  lemma SafetyIsNotSafetyComma(p: Paper)
    requires Split(Lower(p.abstractText)) == ["safety,"]
    ensures !MatchesKeyword(p, ["safety"])
  {
  }

  /** Punctuation stays attached to its token: `safety,` is not the keyword `safety`. */
  lemma KeywordPunctuationBlocks(p: Paper)
    requires p.abstractText == "safety,"
    ensures !MatchesKeyword(p, ["safety"])
  {
    SplitSafetyComma();
    assert Split(Lower(p.abstractText)) == ["safety,"];
    SafetyIsNotSafetyComma(p);
  }

  // ---------------------------------------------------------------------------
  // Language-model filter

  function LlmMatcher(isPaperMatch: (Paper, string) -> bool, paperToHunt: string): Paper -> bool
  {
    (p: Paper) => isPaperMatch(p, paperToHunt)
  }

  /** `filter_papers_using_llm`: keep each paper the model judges a match for the description. */
  method FilterPapersUsingLlm(papers: seq<Paper>, paperToHunt: string, isPaperMatch: (Paper, string) -> bool)
    returns (results: seq<Paper>)
    ensures results == Filter(papers, LlmMatcher(isPaperMatch, paperToHunt))
  {
    results := [];
    for i := 0 to |papers|
      invariant results == Filter(papers[..i], LlmMatcher(isPaperMatch, paperToHunt))
    {
      assert papers[..i + 1] == papers[..i] + [papers[i]];
      FilterSnoc(papers[..i], papers[i], LlmMatcher(isPaperMatch, paperToHunt));
      if isPaperMatch(papers[i], paperToHunt) {
        results := results + [papers[i]];
      }
    }
    assert papers[..|papers|] == papers;
  }

  /** The model filter returns exactly the papers the oracle accepts, in input order. */
  lemma LlmFilterKeepsExactlyMatches(papers: seq<Paper>, paperToHunt: string, isPaperMatch: (Paper, string) -> bool)
    ensures forall p :: p in Filter(papers, LlmMatcher(isPaperMatch, paperToHunt)) <==>
      p in papers && isPaperMatch(p, paperToHunt)
    ensures IsSubsequenceAt(Filter(papers, LlmMatcher(isPaperMatch, paperToHunt)), papers,
      KeptIndices(papers, LlmMatcher(isPaperMatch, paperToHunt)))
    ensures forall i :: 0 <= i < |papers| ==>
      (i in KeptIndices(papers, LlmMatcher(isPaperMatch, paperToHunt)) <==> isPaperMatch(papers[i], paperToHunt))
  {
    FilterMembership(papers, LlmMatcher(isPaperMatch, paperToHunt));
    FilterIsSubsequence(papers, LlmMatcher(isPaperMatch, paperToHunt));
  }

  // ---------------------------------------------------------------------------
  // The store of previously delivered papers

  function NotInHistory(historyIds: set<string>): Paper -> bool
  {
    (p: Paper) => p.id !in historyIds
  }

  /** `deduplicate_papers`: with no stored history (missing or empty file) the input comes back
      as it is; otherwise exactly the papers whose id the history does not hold, in order. */
  function DeduplicateAgainstHistory(papers: seq<Paper>, history: Option<seq<Paper>>): (r: seq<Paper>)
    ensures history.None? ==> r == papers
    ensures forall p :: p in r <==> p in papers && (history.Some? ==> p.id !in Ids(history.value))
    ensures history.Some? ==>
      IsSubsequenceAt(r, papers, KeptIndices(papers, NotInHistory(Ids(history.value))))
    ensures history.Some? ==> forall i :: 0 <= i < |papers| ==>
      (i in KeptIndices(papers, NotInHistory(Ids(history.value))) <==> papers[i].id !in Ids(history.value))
  {
    match history
    case None => papers
    case Some(content) =>
      var contentId := Ids(content);
      FilterMembership(papers, NotInHistory(contentId));
      FilterIsSubsequence(papers, NotInHistory(contentId));
      Filter(papers, NotInHistory(contentId))
  }

  /** Duplicates inside the input are not removed: when no input id is in the history, the
      input comes back whole. */
  lemma HistoryDedupKeepsInputDuplicates(papers: seq<Paper>, history: Option<seq<Paper>>)
    requires history.Some? ==> forall i :: 0 <= i < |papers| ==> papers[i].id !in Ids(history.value)
    ensures DeduplicateAgainstHistory(papers, history) == papers
  {
    if history.Some? {
      FilterAll(papers, NotInHistory(Ids(history.value)));
    }
  }

  /** A stored `A` and the input `[A, B]` leave `[B]`. */
  lemma HistoryDedupExample(a: Paper, b: Paper)
    requires a.id != b.id
    ensures DeduplicateAgainstHistory([a, b], Some([a])) == [b]
  {
  }

  /** The stored records found when reading the store, `[]` when it is missing or empty. */
  function StoredOrEmpty(stored: Option<seq<Paper>>): seq<Paper>
  {
    if stored.Some? then stored.value else []
  }

  /** `prepend_to_json_file`: the array written back is the new batch followed by every record
      already stored, unchanged and in the same order. */
  function PrependToStore(stored: Option<seq<Paper>>, data: seq<Paper>): (written: seq<Paper>)
    ensures |written| == |data| + |StoredOrEmpty(stored)|
    ensures written[..|data|] == data
    ensures written[|data|..] == StoredOrEmpty(stored)
  {
    data + StoredOrEmpty(stored)
  }

  /** Writing `[x]` and then `[y]` to a store that does not exist yet leaves `[y, x]`: the
      newest batch first. The file always exists after a write, so the second read sees it. */
  lemma PrependTwice(x: Paper, y: Paper)
    ensures PrependToStore(Some(PrependToStore(None, [x])), [y]) == [y, x]
  {
  }

  /** A paper written to the store is filtered out on every later run: the next history
      de-duplication keeps no paper sharing an id with the batch just written, nor with any
      record stored before it. */
  lemma WrittenPapersAreNotRedelivered(stored: Option<seq<Paper>>, data: seq<Paper>, later: seq<Paper>)
    ensures forall p :: p in DeduplicateAgainstHistory(later, Some(PrependToStore(stored, data))) ==>
      p.id !in Ids(data) && p.id !in Ids(StoredOrEmpty(stored))
  {
  }

  // ---------------------------------------------------------------------------
  // Translating abstracts

  /** The record after its translation: `zh_abstract` is the oracle's text when that is a
      non-empty string and `null` otherwise; nothing else changes. */
  function Translated(p: Paper, translate: string -> Option<string>): (q: Paper)
    ensures q.(zhAbstract := p.zhAbstract) == p
    ensures q.zhAbstract.Some? <==> translate(p.abstractText).Some? && translate(p.abstractText).value != ""
    ensures q.zhAbstract.Some? ==> q.zhAbstract == translate(p.abstractText)
  {
    var zh := translate(p.abstractText);
    p.(zhAbstract := if zh.Some? && zh.value != "" then zh else None)
  }

  /** Every record of the list, translated, in the same order. */
  function TranslatedAll(papers: seq<Paper>, translate: string -> Option<string>): seq<Paper>
  {
    if papers == [] then []
    else TranslatedAll(papers[..|papers| - 1], translate) + [Translated(papers[|papers| - 1], translate)]
  }

  /** The translated list has the same length and, at each position, the translation of the
      record that was there. */
  lemma {:induction false} TranslatedAllAt(papers: seq<Paper>, translate: string -> Option<string>)
    ensures |TranslatedAll(papers, translate)| == |papers|
    ensures forall i :: 0 <= i < |papers| ==> TranslatedAll(papers, translate)[i] == Translated(papers[i], translate)
  {
    if papers != [] {
      TranslatedAllAt(papers[..|papers| - 1], translate);
    }
  }

  /** Translating again changes nothing: the abstract the oracle reads is never touched. */
  lemma {:induction false} TranslatedAllIdempotent(papers: seq<Paper>, translate: string -> Option<string>)
    ensures TranslatedAll(TranslatedAll(papers, translate), translate) == TranslatedAll(papers, translate)
  {
    if papers != [] {
      var init := papers[..|papers| - 1];
      TranslatedAllIdempotent(init, translate);
      TranslatedAllAt(papers, translate);
      var once := TranslatedAll(papers, translate);
      assert once[..|once| - 1] == TranslatedAll(init, translate);
    }
  }

  /** `translate_abstracts`: each record of the list is updated in place, in order, and the
      same list is handed back. */
  method TranslateAbstracts(papers: array<Paper>, translate: string -> Option<string>)
    returns (translated: array<Paper>)
    modifies papers
    ensures translated == papers
    ensures papers[..] == TranslatedAll(old(papers[..]), translate)
  {
    ghost var original := papers[..];
    for i := 0 to papers.Length
      invariant papers[..i] == TranslatedAll(original[..i], translate)
      invariant forall j :: i <= j < papers.Length ==> papers[j] == original[j]
    {
      var abstractText := papers[i].abstractText;
      var zhAbstract := translate(abstractText);
      papers[i] := papers[i].(zhAbstract := None);
      if zhAbstract.Some? && zhAbstract.value != "" {
        papers[i] := papers[i].(zhAbstract := zhAbstract);
      }
      assert original[..i + 1][..i] == original[..i];
      assert papers[..i + 1] == papers[..i] + [papers[i]];
    }
    assert original[..papers.Length] == original;
    assert papers[..papers.Length] == papers[..];
    translated := papers;
  }
}
