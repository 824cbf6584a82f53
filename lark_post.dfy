/**
  The card payload that post_to_lark_webhook (lark_post.py) sends to the chat
  webhook: a `table_rows` list and a `paper_list` list built from the papers
  with 1-based counters, wrapped in the card template and the message
  envelope. One request is built per call, for all papers at once; sending it
  and reading the status code are not modelled, and today's date is a
  parameter.
*/
module LarkPost {
  import opened Wrappers
  import opened ArxivPaper

  /** The webhook settings the function reads from its configuration. */
  datatype WebhookConfig = WebhookConfig(webhookUrl: string, templateId: string, templateVersionName: string)

  datatype TableRow = TableRow(index: int, title: string, id: string, published: string, url: string)

  datatype PaperEntry = PaperEntry(
    counter: int,
    title: string,
    id: string,
    abstractText: string,
    zhAbstract: Option<string>,
    url: string,
    published: string,
    comment: string)

  datatype TemplateVariable = TemplateVariable(
    todayDate: string,
    tag: string,
    totalPaper: int,
    tableRows: seq<TableRow>,
    paperList: seq<PaperEntry>)

  datatype CardData = CardData(cardType: string, templateId: string, templateVersionName: string, templateVariable: TemplateVariable)

  datatype Message = Message(msgType: string, card: CardData)

  /** The one POST the function makes: the target URL, the content type header and the JSON body. */
  datatype Request = Request(url: string, contentType: string, body: Message)

  /** The exception raised when a record lacks a key that is indexed directly. */
  datatype KeyError = KeyError(key: string)

  /** The Markdown link shown in the table: the URL as both text and target. */
  function MarkdownLink(u: string): (link: string)
    ensures |link| == 2 * |u| + 4
    ensures link[0] == '[' && link[|u| + 1..|u| + 3] == "](" && link[|link| - 1] == ')'
    ensures link[1..|u| + 1] == u && link[|u| + 3..2 * |u| + 3] == u
  {
    "[" + u + "](" + u + ")"
  }

  /** The URL a table link points to. */
  function LinkTarget(link: string): string
    requires |link| >= 4
  {
    link[1..(|link| - 4) / 2 + 1]
  }

  /** The table link keeps the URL recoverable, so distinct URLs give distinct links. */
  lemma MarkdownLinkRoundTrip(u: string, w: string)
    ensures LinkTarget(MarkdownLink(u)) == u
    ensures MarkdownLink(u) == MarkdownLink(w) ==> u == w
  {
  }

  /** The `comment` value shown: the comment when it is a non-empty string, `""` when it is
      `null` or empty. The key must be there. */
  function CommentText(c: Slot<string>): (text: string)
    requires c != Absent
    ensures c.Present? ==> text == c.value
    ensures c.Null? ==> text == ""
  {
    if c.Present? && c.value != "" then c.value else ""
  }

  /** One row of `table_rows`. */
  function Row(counter: int, p: Paper): TableRow
  {
    TableRow(counter, p.title, p.id, p.published, MarkdownLink(p.url))
  }

  /** `table_rows`, numbering the papers from `counter` on. */
  function TableRowsFrom(papers: seq<Paper>, counter: int): (rows: seq<TableRow>)
    ensures |rows| == |papers|
    ensures forall i :: 0 <= i < |papers| ==> rows[i] == Row(counter + i, papers[i])
  {
    if papers == [] then [] else [Row(counter, papers[0])] + TableRowsFrom(papers[1..], counter + 1)
  }

  predicate AllHaveCommentKey(papers: seq<Paper>)
  {
    forall i :: 0 <= i < |papers| ==> papers[i].comment != Absent
  }

  /** One entry of `paper_list`. */
  function Entry(counter: int, p: Paper): PaperEntry
    requires p.comment != Absent
  {
    PaperEntry(counter, p.title, p.id, p.abstractText, p.zhAbstract, p.url, p.published, CommentText(p.comment))
  }

  /** `paper_list`, numbering the papers from `counter` on; a record without a `comment` key
      raises `KeyError('comment')`. */
  function PaperListFrom(papers: seq<Paper>, counter: int): (r: Result<seq<PaperEntry>, KeyError>)
    ensures r.Failure? <==> !AllHaveCommentKey(papers)
    ensures r.Failure? ==> r.error == KeyError("comment")
    ensures r.Success? ==> |r.value| == |papers|
    ensures r.Success? ==> forall i :: 0 <= i < |papers| ==> r.value[i] == Entry(counter + i, papers[i])
  {
    if papers == [] then Success([])
    else if papers[0].comment == Absent then Failure(KeyError("comment"))
    else
      match PaperListFrom(papers[1..], counter + 1)
      case Failure(e) => Failure(e)
      case Success(rest) => Success([Entry(counter, papers[0])] + rest)
  }

  /** The request `post_to_lark_webhook` sends for all the papers at once. */
  function BuildRequest(tag: string, papers: seq<Paper>, config: WebhookConfig, todayDate: string): (r: Result<Request, KeyError>)
    ensures r.Failure? <==> !AllHaveCommentKey(papers)
    ensures r.Failure? ==> r.error == KeyError("comment")
    ensures r.Success? ==>
      && r.value.url == config.webhookUrl
      && r.value.contentType == "application/json"
      && r.value.body.msgType == "interactive"
      && r.value.body.card.cardType == "template"
      && r.value.body.card.templateId == config.templateId
      && r.value.body.card.templateVersionName == config.templateVersionName
      && r.value.body.card.templateVariable.todayDate == todayDate
      && r.value.body.card.templateVariable.tag == tag
      && r.value.body.card.templateVariable.totalPaper == |papers|
      && r.value.body.card.templateVariable.tableRows == TableRowsFrom(papers, 1)
      && PaperListFrom(papers, 1) == Success(r.value.body.card.templateVariable.paperList)
  {
    var tableRows := TableRowsFrom(papers, 1);
    match PaperListFrom(papers, 1)
    case Failure(e) => Failure(e)
    case Success(paperList) =>
      var variable := TemplateVariable(todayDate, tag, |papers|, tableRows, paperList);
      var card := CardData("template", config.templateId, config.templateVersionName, variable);
      Success(Request(config.webhookUrl, "application/json", Message("interactive", card)))
  }

  /** The single card lists every paper once, in input order, numbered 1..n in both lists, with
      title, id, url and date copied from the paper at the same position. The `abstract` shown
      is always the original, next to the translation (or `null`). */
  lemma CardListsEveryPaperInOrder(tag: string, papers: seq<Paper>, config: WebhookConfig, todayDate: string)
    requires AllHaveCommentKey(papers)
    ensures BuildRequest(tag, papers, config, todayDate).Success?
    ensures var v := BuildRequest(tag, papers, config, todayDate).value.body.card.templateVariable;
      && |v.tableRows| == |v.paperList| == v.totalPaper == |papers|
      && forall i :: 0 <= i < |papers| ==>
        && v.tableRows[i].index == v.paperList[i].counter == i + 1
        && v.tableRows[i].title == v.paperList[i].title == papers[i].title
        && v.tableRows[i].id == v.paperList[i].id == papers[i].id
        && v.tableRows[i].published == v.paperList[i].published == papers[i].published
        && v.paperList[i].url == papers[i].url
        && v.tableRows[i].url == MarkdownLink(papers[i].url)
        && v.paperList[i].abstractText == papers[i].abstractText
        && v.paperList[i].zhAbstract == papers[i].zhAbstract
  {
  }

  /** No batching: an empty list still yields exactly one request, listing nothing. */
  lemma EmptyListStillPosts(tag: string, config: WebhookConfig, todayDate: string)
    ensures BuildRequest(tag, [], config, todayDate) ==
      Success(Request(config.webhookUrl, "application/json", Message("interactive",
        CardData("template", config.templateId, config.templateVersionName,
          TemplateVariable(todayDate, tag, 0, [], [])))))
  {
  }

  /** Counters run on across the whole list: the entries for `a + b` are those for `a`
      followed by those for `b` numbered from where `a` stopped. */
  lemma PaperListConcat(a: seq<Paper>, b: seq<Paper>, counter: int)
    requires AllHaveCommentKey(a) && AllHaveCommentKey(b)
    ensures PaperListFrom(a, counter).Success? && PaperListFrom(b, counter + |a|).Success?
    ensures PaperListFrom(a + b, counter) ==
      Success(PaperListFrom(a, counter).value + PaperListFrom(b, counter + |a|).value)
  {
    assert AllHaveCommentKey(a + b);
    var whole := PaperListFrom(a + b, counter).value;
    var parts := PaperListFrom(a, counter).value + PaperListFrom(b, counter + |a|).value;
    assert forall i :: |a| <= i < |a + b| ==> (a + b)[i] == b[i - |a|];
    assert |whole| == |parts|;
    assert forall i :: 0 <= i < |whole| ==> whole[i] == parts[i];
    assert whole == parts;
  }

  /** The records the fetcher builds carry no `comment` key, so no list holding one of them
      can be posted, whatever filters it went through: building the card raises
      `KeyError('comment')`. */
  lemma FetchedPapersCannotBePosted(tag: string, papers: seq<Paper>, k: int, r: SearchResult, config: WebhookConfig, todayDate: string)
    requires 0 <= k < |papers| && papers[k] == FromResult(r)
    ensures BuildRequest(tag, papers, config, todayDate) == Failure(KeyError("comment"))
  {
  }

  /** Records that store the result's comment (`null` when it has none) can always be posted. */
  lemma CommentedPapersArePosted(tag: string, results: seq<SearchResult>, config: WebhookConfig, todayDate: string)
    ensures var papers := seq(|results|, i requires 0 <= i < |results| => FromResultWithComment(results[i]));
      && BuildRequest(tag, papers, config, todayDate).Success?
      && forall i :: 0 <= i < |results| ==>
        BuildRequest(tag, papers, config, todayDate).value.body.card.templateVariable.paperList[i].comment ==
          if results[i].comment.Some? then results[i].comment.value else ""
  {
  }
}
