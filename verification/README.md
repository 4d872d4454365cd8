# Sitemap harvesting, URL categorization and article cleaning

A Dafny model of the pure core of a small scraping pipeline. The pipeline
reads a site's sitemap, sorts the page URLs into topic categories, and turns
each page's `<article>` into Markdown. The model covers three steps:

- **Harvesting filter** (`Sitemap`). The `<loc>` texts of the sitemap are
  given as input. Every URL containing the asset directory marker
  `wp-content` is dropped. Order and duplicates are kept.
- **Categorizer** (`Categorizer`). The taxonomy is a parameter: a sequence of
  (category name, variations) pairs in the configuration's key order. A URL
  goes into the bucket of every category that has a variation occurring in
  it, as a case-sensitive substring. Two side lists record the URLs that
  matched no category and the URLs that matched several. `CategorizeUrls`
  mirrors the nested loop. Its result is related to independent reference
  lists (`Bucket`, `Uncategorized`, `MultiCategorized`, all built with a
  generic `Sequences.Filter`). The lemmas then characterise those lists
  position by position and by multiplicity.
- **Article cleaning** (`Html`, `Search`, `Pruning`, `Article`). A parsed page
  is an immutable tree of elements, each with a tag, class tokens and
  children, and text nodes.
  - Searches report strict descendants in document order, like the parser's
    `find`/`find_all`.
  - `remove_unwanted_elements` deletes every descendant that matches one of the
    (tag, class token) pairs of `UNWANTED_ELEMENTS`.
  - `remove_last_element` deletes only the last descendant in document order
    whose tag is `div` and whose whole class attribute is
    `container px-sm-0`.
  - `url_to_markdown` maps a fetch outcome to one of four results: the
    rendering of the first cleaned `<article>`, the fixed "no article" text,
    or one of two error texts.

Positions in a tree are child-index paths (`Html.Path`). Document order is
the strict total order `Html.Precedes`. Deleting the subtree at a position is
`Pruning.DeleteAt`. The parser's document object is the root `Element` of
the tree handed to `Article.Extract`, so the `<article>` lookup, like
`soup.find`, never reports the root itself.

## Model

| member | source | states |
|---|---|---|
| Sitemap.ExtractUrls | get_urls.py:16 | no URL in the result contains `wp-content` |
| Sitemap.ExtractUrlsMultiplicity | get_urls.py:16 | each URL without the marker keeps exactly its number of occurrences; each URL with it has none |
| Sitemap.ExtractUrlsKeepsOrder | get_urls.py:13-16 | the result is the subsequence of the `<loc>` texts at exactly the positions free of the marker, in sitemap order |
| Sitemap.ExtractUrlsIdentity | get_urls.py:16 | a list without asset URLs passes through unchanged |
| Sitemap.ExtractUrlsIdempotent | get_urls.py:16 | filtering twice is filtering once |
| Categorizer.MatchesCategory | get_urls.py:37 | a category without variations never matches; one listing the empty string always matches |
| Categorizer.FileUrl | get_urls.py:34-39 | the inner loop collects the matching categories in taxonomy order, appends the URL to exactly those buckets, and leaves the other buckets and the key set alone |
| Categorizer.CategorizeUrls | get_urls.py:22-50 | the bucket keys are exactly the category names; each bucket equals the input filtered by its category; the side lists equal the input filtered by "no match" and "several matches" |
| Categorizer.MatchedCategoriesMembers | get_urls.py:36-38 | a name is in `url_categories` iff some taxonomy entry with that name matches |
| Categorizer.MatchedCategoriesDistinct | get_urls.py:36-38 | with distinct category names, `url_categories` has no repeats |
| Categorizer.NoMatchedCategories | get_urls.py:41 | `url_categories` is empty iff no category matches |
| Categorizer.SeveralMatchedCategories | get_urls.py:43 | `url_categories` has two or more entries iff two distinct categories match |
| Categorizer.BucketHoldsMatchingUrls | get_urls.py:28-39 | a bucket is the subsequence of the input, in input order, at exactly the positions where a variation of its category occurs, with every such URL at its full multiplicity |
| Categorizer.SideListsHoldAnomalies | get_urls.py:41-44 | `uncategorized` is the subsequence of positions matching no category; `multiple_categories` is the subsequence of positions matching two or more |
| Categorizer.InBucketIffMatches | get_urls.py:37-39 | an input URL is in a category's bucket iff that category matches it |
| Categorizer.HoldingBuckets | get_urls.py:36-39 | the buckets holding an input URL are exactly those of the categories matching it |
| Categorizer.MatchingCategoryCount | get_urls.py:36-38 | the number of matching category names equals the length of `url_categories` |
| Categorizer.PlacementOfUrl | get_urls.py:33-44 | an input URL is in as many buckets as categories it matches, in `uncategorized` iff in no bucket, in `multiple_categories` iff in two or more; so it is never lost and never in both side lists |
| Categorizer.EmptyVariationsCollectNothing | get_urls.py:37 | a category with no variations gets an empty bucket |
| Categorizer.EmptyVariationCollectsAll | get_urls.py:37 | a category listing the empty string collects every URL in order |
| Search.FirstMatch | url_to_markdown.py:33 | a reported position is a strict descendant that the selector matches |
| Search.FirstMatchIsFirst | url_to_markdown.py:33 | `find` reports nothing iff there is no match, and no match precedes the one it reports |
| Search.LastMatch | url_to_markdown.py:59-61 | a reported position is a strict descendant that the selector matches |
| Search.LastMatchIsLast | url_to_markdown.py:59-61 | the last element of `find_all` is absent iff there is no match, and every other match precedes it in document order |
| Search.FirstMatchPrecedesOthers | url_to_markdown.py:33 | every match other than the one `find` reports comes after it in document order |
| Search.FindAllMatches | url_to_markdown.py:59 | a position is in `find_all`'s list iff a strict descendant there matches |
| Search.FindAllInDocumentOrder | url_to_markdown.py:59 | `find_all`'s list is strictly increasing in document order, so every match appears once |
| Search.FirstMatchIsFirstFound | url_to_markdown.py:33 | `find` reports nothing iff `find_all`'s list is empty, and otherwise its first element |
| Search.LastMatchIsLastFound | url_to_markdown.py:59-61 | the last-match search reports nothing iff `find_all`'s list is empty, and otherwise `elements[-1]` |
| Pruning.RemoveAll | url_to_markdown.py:52-53 | deleting every match keeps the root and leaves no match below it |
| Pruning.CleanBelowMeaning | url_to_markdown.py:52-53 | "clean below" means no descendant position holds a match |
| Pruning.RemoveAllIdempotent | url_to_markdown.py:52-53 | a second removal pass changes nothing |
| Pruning.RemoveAllCompose | url_to_markdown.py:50-53 | removing the matches of one selector list and then of another equals one pass over both lists |
| Pruning.RemoveEachIsRemoveAll | url_to_markdown.py:50-53 | the selector-by-selector loop equals one pass removing every match of any selector |
| Pruning.SurvivorsKept | url_to_markdown.py:52-53 | every node with no matching ancestor-or-self survives, itself cleaned, at its relocated position |
| Pruning.RelocateKeepsOrder | url_to_markdown.py:52-53 | survivors keep their relative document order |
| Pruning.SurvivingChildOrigin | url_to_markdown.py:52-53 | each surviving child comes from a non-matching original child with the same number of survivors before it |
| Pruning.OutputFromSurvivor | url_to_markdown.py:52-53 | every node of the cleaned tree is the cleaned image of an original node with no matching ancestor-or-self |
| Pruning.DeleteAt | url_to_markdown.py:61 | `decompose` keeps the root's tag and classes |
| Pruning.DeleteAtKeepsRest | url_to_markdown.py:61 | every position outside the deleted subtree survives at its shifted position: unchanged, except that ancestors of the deleted element keep only their tag and classes; positions before it do not move, later siblings move one place left |
| Pruning.AfterDeleteKeepsOrder | url_to_markdown.py:61 | the positions outside the deleted subtree keep their document order |
| Pruning.DeleteAtSize | url_to_markdown.py:61 | `decompose` removes exactly the nodes of the deleted subtree |
| Pruning.DeleteAtCount | url_to_markdown.py:61 | the matches lost are exactly those in the deleted subtree |
| Pruning.DeleteAtKeepsClean | url_to_markdown.py:61 | a deletion cannot introduce a match |
| Pruning.CountMatchesMeaning | url_to_markdown.py:59-60 | `find_all` returns a non-empty list iff there is a match position |
| Pruning.FindAllLength | url_to_markdown.py:59-60 | the match count is the length of `find_all`'s list |
| Pruning.RemoveLast | url_to_markdown.py:57-62 | the root is kept |
| Pruning.RemoveLastDeletesLastFound | url_to_markdown.py:59-62 | `remove_last_element` as written: unchanged when `find_all`'s list is empty, otherwise `elements[-1]` is a match and its subtree is deleted |
| Pruning.RemoveLastUnchangedIffNoMatch | url_to_markdown.py:60-62 | the tree is unchanged iff nothing matches |
| Pruning.RemoveLastRemovesLastMatch | url_to_markdown.py:59-61 | with a match, the subtree deleted is the one at the document-order-last match |
| Pruning.EarlierMatchesSurvive | url_to_markdown.py:59-61 | every earlier match, including one enclosing the last, is still a match at the same position; one enclosing no match is untouched |
| Pruning.NoMatchInsideLast | url_to_markdown.py:59-61 | nothing below the last match matches |
| Pruning.RemoveLastRemovesOneMatch | url_to_markdown.py:59-61 | the number of matches, and so the length of `find_all`'s list, drops by exactly one, or stays zero |
| Article.ClassSelectorsListed | url_to_markdown.py:6-19 | the selectors searched for are exactly the (tag, class token) pairs of `UNWANTED_ELEMENTS` |
| Article.RemoveUnwantedLeavesNone | url_to_markdown.py:6-19 | after `remove_unwanted_elements` the article is kept and no descendant has a listed (tag, class) pair |
| Article.RemoveUnwantedIdempotent | url_to_markdown.py:48-54 | a second `remove_unwanted_elements` changes nothing |
| Article.CleanArticleLeavesNoNoise | url_to_markdown.py:36-39 | after both cleaning steps the article is kept and still has no listed noise below it |
| Article.OutcomeTextsDistinct | url_to_markdown.py:27-45 | the HTTP error text, the other-error text and the missing-article text differ, whatever the reasons |
| Article.FetchFailureShortCircuits | url_to_markdown.py:24-30 | an HTTP failure and any other failure give their texts with the reason, the renderer plays no part, and the text is neither the missing-article text nor the other kind of failure's text |
| Article.MissingArticleGivesMessage | url_to_markdown.py:33-35 | the fixed sentinel text comes back exactly when the page has no `<article>`, and then nothing is rendered |
| Article.FirstArticleIsCleaned | url_to_markdown.py:33-43 | a page with an `<article>` renders the first one in document order after unwanted-element removal and then trailing-container removal |

## Left out

- Fetching the sitemap and the pages over HTTP is network I/O. A page fetch is the input `Article.FetchOutcome`, which distinguishes an HTTP error status from any other failure; the sitemap fetch is not modelled.
- Parsing XML and HTML belongs to a foreign library. The model takes the extracted `<loc>` texts and an already built tree.
- The HTML-to-Markdown rendering belongs to a foreign library. It is the parameter `render` of `Article.UrlToMarkdown`.
- Loading `categorizer.json` is file I/O. The taxonomy is a parameter.
- main.py and the module-level demo call at the end of url_to_markdown.py are orchestration and I/O.
- main.py imports `get_url_path` and `dump_to_file` from url_to_markdown.py, which does not define them, so path resolution and file writing are not modelled.
- Categorizer.CategorizeUrls: requires distinct category names. A JSON object loaded into a Python dict cannot repeat a key, so the source never sees duplicates.
- Elements carry only a tag and class tokens. Other attributes play no part in the cleaning.
- Html.Matches: a class token selector is modelled as membership of the token. The parser also accepts a match against the whole class attribute, which for the whitespace-free tokens of `UNWANTED_ELEMENTS` means the same thing.
- Html.Matches: the whole-attribute selector compares against the tokens joined by single spaces. This is how the parser rebuilds the attribute. A single token cannot contain the space of "container px-sm-0", so the per-token alternative never applies.
- The cleaning mutates the parsed page in place. The model returns the cleaned article as a new tree.
- A `decompose` on an element already removed with an enclosing match has no visible effect. The model removes the outermost matches and skips their insides.
- No images and no id-marked elements are removed: the code does neither. The breadcrumb goes by class (`p.breadcrumbs`) inside the article, like the other listed noise.
