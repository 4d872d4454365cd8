/** `url_to_markdown`: what becomes of a page, from the outcome of fetching it to
    the cleaned `<article>` handed to the Markdown renderer, or the text returned
    instead when there is nothing to render. */
module Article {
  import opened Html
  import opened Search
  import opened Pruning

  /** `UNWANTED_ELEMENTS`: tag names, each with the class tokens that mark an
      element of that tag as noise. */
  const UnwantedElements: seq<(string, seq<string>)> := [
    ("div", ["content-list", "helpful", "card", "posts", "share", "satisfaction", "report", "cta-content"]),
    ("button", ["share"]),
    ("p", ["breadcrumbs", "views"])
  ]

  /** One `find_all(tag, class_=token)` selector per table entry and token, in
      the order the nested loops visit them. */
  function ClassSelectors(table: seq<(string, seq<string>)>): seq<Selector>
  {
    if |table| == 0 then []
    else
      var (tag, tokens) := table[0];
      seq(|tokens|, j requires 0 <= j < |tokens| => HasClass(tag, tokens[j])) + ClassSelectors(table[1..])
  }

  /** The selectors are exactly the (tag, token) pairs of the table. */
  lemma {:induction false} ClassSelectorsListed(table: seq<(string, seq<string>)>, sel: Selector)
    ensures sel in ClassSelectors(table)
            <==> exists k, j :: 0 <= k < |table| && 0 <= j < |table[k].1|
                                && sel == HasClass(table[k].0, table[k].1[j])
  {
    if |table| > 0 {
      var (tag, tokens) := table[0];
      var head := seq(|tokens|, j requires 0 <= j < |tokens| => HasClass(tag, tokens[j]));
      var rest := ClassSelectors(table[1..]);
      assert ClassSelectors(table) == head + rest;
      ClassSelectorsListed(table[1..], sel);
      if sel in head {
        var j :| 0 <= j < |head| && head[j] == sel;
        assert sel == HasClass(table[0].0, table[0].1[j]);
      }
      if sel in rest {
        var k, j :| 0 <= k < |table[1..]| && 0 <= j < |table[1..][k].1|
                    && sel == HasClass(table[1..][k].0, table[1..][k].1[j]);
        assert table[k + 1] == table[1..][k];
      }
      if exists k, j :: 0 <= k < |table| && 0 <= j < |table[k].1|
                        && sel == HasClass(table[k].0, table[k].1[j]) {
        var k, j :| 0 <= k < |table| && 0 <= j < |table[k].1|
                    && sel == HasClass(table[k].0, table[k].1[j]);
        if k == 0 {
          assert head[j] == sel;
        } else {
          assert table[1..][k - 1] == table[k];
          assert sel in rest;
        }
      }
    }
  }

  /** `remove_unwanted_elements`. */
  function RemoveUnwantedElements(article: Node): Node
  {
    RemoveEach(article, ClassSelectors(UnwantedElements))
  }

  /** The selector of the trailing container: a `div` whose whole class attribute
      is "container px-sm-0". */
  const TrailingContainer: Selector := ClassAttributeIs("div", "container px-sm-0")

  const ArticleTag: Selector := TagIs("article")

  /** The text returned when the page has no `<article>` element. */
  const NoArticleMessage: string := "No article tag found in the HTML content."

  /** The two cleaning steps applied to the article, in this order. */
  function CleanArticle(article: Node): Node
  {
    RemoveLast(RemoveUnwantedElements(article), TrailingContainer)
  }

  /** How fetching the page ended: with a document, with an HTTP error status
      (`raise_for_status`), or with any other failure. The document is given
      already parsed. */
  datatype FetchOutcome =
    | Fetched(document: Node)
    | HttpFailure(reason: string)
    | TransportFailure(reason: string)

  /** The four outcomes `url_to_markdown` distinguishes. */
  datatype Extraction =
    | Cleaned(article: Node)
    | NoArticle
    | HttpError(reason: string)
    | OtherError(reason: string)

  function Extract(fetch: FetchOutcome): Extraction
  {
    match fetch
    case HttpFailure(reason) => HttpError(reason)
    case TransportFailure(reason) => OtherError(reason)
    case Fetched(document) =>
      match FirstMatch(document, ArticleTag)
      case None => NoArticle
      case Some(p) => Cleaned(CleanArticle(At(document, p)))
  }

  /** `url_to_markdown`, with the Markdown renderer as a parameter. */
  function UrlToMarkdown(fetch: FetchOutcome, render: Node -> string): string
  {
    match Extract(fetch)
    case Cleaned(article) => render(article)
    case NoArticle => NoArticleMessage
    case HttpError(reason) => "HTTP error occurred: " + reason
    case OtherError(reason) => "An error occurred: " + reason
  }

  /** After `remove_unwanted_elements` no element below the article has a
      (tag, class) pair listed in `UNWANTED_ELEMENTS`, and the article itself is kept. */
  lemma RemoveUnwantedLeavesNone(article: Node)
    ensures SameRoot(RemoveUnwantedElements(article), article)
    ensures var r := RemoveUnwantedElements(article);
            forall p, k, j :: && |p| > 0 && ValidPath(r, p)
                              && 0 <= k < |UnwantedElements| && 0 <= j < |UnwantedElements[k].1|
                              ==> !Matches(At(r, p), HasClass(UnwantedElements[k].0, UnwantedElements[k].1[j]))
  {
    var sels := ClassSelectors(UnwantedElements);
    var r := RemoveUnwantedElements(article);
    RemoveEachIsRemoveAll(article, sels);
    CleanBelowMeaning(r, sels);
    forall p, k, j | && |p| > 0 && ValidPath(r, p)
                     && 0 <= k < |UnwantedElements| && 0 <= j < |UnwantedElements[k].1|
      ensures !Matches(At(r, p), HasClass(UnwantedElements[k].0, UnwantedElements[k].1[j]))
    {
      var sel := HasClass(UnwantedElements[k].0, UnwantedElements[k].1[j]);
      ClassSelectorsListed(UnwantedElements, sel);
      var i :| 0 <= i < |sels| && sels[i] == sel;
    }
  }

  /** A second `remove_unwanted_elements` finds nothing more to remove. */
  lemma RemoveUnwantedIdempotent(article: Node)
    ensures RemoveUnwantedElements(RemoveUnwantedElements(article)) == RemoveUnwantedElements(article)
  {
    var sels := ClassSelectors(UnwantedElements);
    RemoveEachIsRemoveAll(article, sels);
    RemoveEachIsRemoveAll(RemoveUnwantedElements(article), sels);
    RemoveAllIdempotent(article, sels);
  }

  /** The cleaned article keeps its root and still has none of the listed noise
      below it: the trailing-container step only deletes. */
  lemma CleanArticleLeavesNoNoise(article: Node)
    ensures SameRoot(CleanArticle(article), article)
    ensures CleanBelow(CleanArticle(article), ClassSelectors(UnwantedElements))
  {
    var sels := ClassSelectors(UnwantedElements);
    var pruned := RemoveUnwantedElements(article);
    RemoveEachIsRemoveAll(article, sels);
    match LastMatch(pruned, TrailingContainer)
    case None =>
    case Some(p) => DeleteAtKeepsClean(pruned, p, sels);
  }

  /** The three fixed texts cannot be confused, whatever the reasons: they
      already differ in their first character. */
  lemma OutcomeTextsDistinct(httpReason: string, otherReason: string)
    ensures "HTTP error occurred: " + httpReason != "An error occurred: " + otherReason
    ensures "HTTP error occurred: " + httpReason != NoArticleMessage
    ensures "An error occurred: " + otherReason != NoArticleMessage
  {
    assert ("HTTP error occurred: " + httpReason)[0] == 'H';
    assert ("An error occurred: " + otherReason)[0] == 'A';
    assert NoArticleMessage[0] == 'N';
  }

  /** A failed fetch ends the call before any parsing: the text names the kind of
      failure and its reason, whatever the renderer would do, and it is neither
      the missing-article text nor the text of the other kind of failure. */
  lemma FetchFailureShortCircuits(fetch: FetchOutcome, render: Node -> string)
    requires !fetch.Fetched?
    ensures fetch.HttpFailure? ==> UrlToMarkdown(fetch, render) == "HTTP error occurred: " + fetch.reason
    ensures fetch.TransportFailure? ==> UrlToMarkdown(fetch, render) == "An error occurred: " + fetch.reason
    ensures forall other: Node -> string :: UrlToMarkdown(fetch, other) == UrlToMarkdown(fetch, render)
    ensures UrlToMarkdown(fetch, render) != NoArticleMessage
    ensures fetch.HttpFailure? ==> forall r :: UrlToMarkdown(fetch, render) != "An error occurred: " + r
    ensures fetch.TransportFailure? ==> forall r :: UrlToMarkdown(fetch, render) != "HTTP error occurred: " + r
  {
    forall r: string
      ensures "HTTP error occurred: " + fetch.reason != "An error occurred: " + r
      ensures "HTTP error occurred: " + r != "An error occurred: " + fetch.reason
    {
      OutcomeTextsDistinct(fetch.reason, r);
      OutcomeTextsDistinct(r, fetch.reason);
    }
    OutcomeTextsDistinct(fetch.reason, fetch.reason);
  }

  /** A page gives the fixed message exactly when it has no `<article>` element,
      and then nothing is rendered. */
  lemma MissingArticleGivesMessage(document: Node, render: Node -> string)
    ensures Extract(Fetched(document)) == NoArticle <==> forall q :: !IsMatchAt(document, ArticleTag, q)
    ensures Extract(Fetched(document)) == NoArticle ==> UrlToMarkdown(Fetched(document), render) == NoArticleMessage
  {
    FirstMatchIsFirst(document, ArticleTag);
  }

  /** A page with an `<article>` element renders the first one in document
      order, cleaned by unwanted-element removal and then trailing-container
      removal. */
  lemma FirstArticleIsCleaned(document: Node, render: Node -> string)
    requires exists q :: IsMatchAt(document, ArticleTag, q)
    ensures FirstMatch(document, ArticleTag).Some?
    ensures var p := FirstMatch(document, ArticleTag).value;
            && (forall q :: IsMatchAt(document, ArticleTag, q) ==> !Precedes(q, p))
            && UrlToMarkdown(Fetched(document), render) == render(CleanArticle(At(document, p)))
  {
    FirstMatchIsFirst(document, ArticleTag);
  }
}
