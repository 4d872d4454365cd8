/** The URL harvester: after the sitemap's `<loc>` texts have been extracted,
    every URL pointing into the asset directory is dropped. Fetching the sitemap
    and parsing its XML are outside the model; the extracted texts are the input. */
module Sitemap {
  import opened Sequences

  /** The marker of the asset directory; a URL containing it is not an article. */
  const AssetMarker: string := "wp-content"

  predicate IsArticleUrl(url: string)
  {
    !Contains(url, AssetMarker)
  }

  /** The list comprehension that drops asset URLs from the `<loc>` texts. */
  function ExtractUrls(locTexts: seq<string>): (urls: seq<string>)
    ensures forall k :: 0 <= k < |urls| ==> !Contains(urls[k], AssetMarker)
  {
    Filter(locTexts, IsArticleUrl)
  }

  /** Every URL without the marker is kept with all its occurrences; every URL
      with the marker disappears completely. */
  lemma ExtractUrlsMultiplicity(locTexts: seq<string>, url: string)
    ensures multiset(ExtractUrls(locTexts))[url]
            == if Contains(url, AssetMarker) then 0 else multiset(locTexts)[url]
  {
    FilterCount(locTexts, IsArticleUrl, url);
  }

  /** The result is the input with the marker-carrying positions removed:
      a subsequence that keeps position `i` exactly when `locTexts[i]` is free of
      the marker, so the sitemap order is preserved. */
  lemma ExtractUrlsKeepsOrder(locTexts: seq<string>)
    ensures exists idx :: && Embedding(idx, ExtractUrls(locTexts), locTexts)
                          && forall i :: 0 <= i < |locTexts| ==>
                               (i in idx <==> !Contains(locTexts[i], AssetMarker))
  {
    FilterSelectsPositions(locTexts, IsArticleUrl);
    var idx := KeptPositions(locTexts, IsArticleUrl);
    assert Embedding(idx, ExtractUrls(locTexts), locTexts)
           && forall i :: 0 <= i < |locTexts| ==> (i in idx <==> !Contains(locTexts[i], AssetMarker));
  }

  /** A sitemap without asset URLs passes through unchanged. */
  lemma ExtractUrlsIdentity(locTexts: seq<string>)
    requires forall k :: 0 <= k < |locTexts| ==> !Contains(locTexts[k], AssetMarker)
    ensures ExtractUrls(locTexts) == locTexts
  {
    FilterKeepsAll(locTexts, IsArticleUrl);
  }

  /** The filter is idempotent: its output has no asset URLs left to drop. */
  lemma ExtractUrlsIdempotent(locTexts: seq<string>)
    ensures ExtractUrls(ExtractUrls(locTexts)) == ExtractUrls(locTexts)
  {
    FilterIdempotent(locTexts, IsArticleUrl);
  }
}
