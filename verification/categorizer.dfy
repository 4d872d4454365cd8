/** The categorizer: each URL goes into the bucket of every category that has a
    variation occurring in it (case-sensitive substring), and two side lists
    record the URLs that matched no category and those that matched several.
    The taxonomy is a parameter, kept in the order of the configuration's keys. */
module Categorizer {
  import opened Sequences

  /** Category names with their variations, in configuration order. */
  type Taxonomy = seq<(string, seq<string>)>

  /** A Python dict cannot hold a key twice. */
  predicate DistinctCategories(tax: Taxonomy)
  {
    forall a, b :: 0 <= a < b < |tax| ==> tax[a].0 != tax[b].0
  }

  function Categories(tax: Taxonomy): set<string>
  {
    set k | 0 <= k < |tax| :: tax[k].0
  }

  /** Whether some variation of a category occurs in the URL. */
  function MatchesCategory(url: string, variations: seq<string>): (b: bool)
    ensures |variations| == 0 ==> !b
    ensures "" in variations ==> b
  {
    ContainsEmpty(url);
    exists k | 0 <= k < |variations| :: Contains(url, variations[k])
  }

  /** The categories a URL matches, in taxonomy order (`url_categories`). */
  function MatchedCategories(url: string, tax: Taxonomy): (cats: seq<string>)
    ensures |cats| <= |tax|
  {
    if |tax| == 0 then []
    else
      var last := tax[|tax| - 1];
      MatchedCategories(url, tax[..|tax| - 1])
        + (if MatchesCategory(url, last.1) then [last.0] else [])
  }

  /** Reference contents of the bucket of a category with these variations. */
  function Bucket(urls: seq<string>, variations: seq<string>): seq<string>
  {
    Filter(urls, u => MatchesCategory(u, variations))
  }

  /** Reference contents of the `uncategorized` list. */
  function Uncategorized(urls: seq<string>, tax: Taxonomy): seq<string>
  {
    Filter(urls, u => |MatchedCategories(u, tax)| == 0)
  }

  /** Reference contents of the `multiple_categories` list. */
  function MultiCategorized(urls: seq<string>, tax: Taxonomy): seq<string>
  {
    Filter(urls, u => |MatchedCategories(u, tax)| > 1)
  }

  datatype Categorization = Categorization(
    buckets: map<string, seq<string>>,
    uncategorized: seq<string>,
    multipleCategories: seq<string>)

  /** `r` is what categorizing `urls` under `tax` yields. */
  ghost predicate Categorizes(r: Categorization, urls: seq<string>, tax: Taxonomy)
  {
    && r.buckets.Keys == Categories(tax)
    && (forall k :: 0 <= k < |tax| ==> r.buckets[tax[k].0] == Bucket(urls, tax[k].1))
    && r.uncategorized == Uncategorized(urls, tax)
    && r.multipleCategories == MultiCategorized(urls, tax)
  }

  lemma BucketStep(urls: seq<string>, i: int, variations: seq<string>)
    requires 0 <= i < |urls|
    ensures Bucket(urls[..i + 1], variations)
            == Bucket(urls[..i], variations)
               + (if MatchesCategory(urls[i], variations) then [urls[i]] else [])
  {
    FilterStep(urls, i, u => MatchesCategory(u, variations));
  }

  lemma SideListsStep(urls: seq<string>, i: int, tax: Taxonomy)
    requires 0 <= i < |urls|
    ensures Uncategorized(urls[..i + 1], tax)
            == Uncategorized(urls[..i], tax)
               + (if |MatchedCategories(urls[i], tax)| == 0 then [urls[i]] else [])
    ensures MultiCategorized(urls[..i + 1], tax)
            == MultiCategorized(urls[..i], tax)
               + (if |MatchedCategories(urls[i], tax)| > 1 then [urls[i]] else [])
  {
    FilterStep(urls, i, u => |MatchedCategories(u, tax)| == 0);
    FilterStep(urls, i, u => |MatchedCategories(u, tax)| > 1);
  }

  lemma MatchedCategoriesStep(url: string, tax: Taxonomy, j: int)
    requires 0 <= j < |tax|
    ensures MatchedCategories(url, tax[..j + 1])
            == MatchedCategories(url, tax[..j])
               + (if MatchesCategory(url, tax[j].1) then [tax[j].0] else [])
  {
    assert tax[..j + 1][..j] == tax[..j];
  }

  /** The inner loop of `categorize_urls` for one URL: collects the categories
      it matches and appends it to each of their buckets, leaving the other
      buckets alone. */
  method FileUrl(url: string, tax: Taxonomy, buckets: map<string, seq<string>>)
    returns (urlCategories: seq<string>, filed: map<string, seq<string>>)
    requires DistinctCategories(tax)
    requires forall k :: 0 <= k < |tax| ==> tax[k].0 in buckets
    ensures urlCategories == MatchedCategories(url, tax)
    ensures filed.Keys == buckets.Keys
    ensures forall k :: 0 <= k < |tax| ==>
              filed[tax[k].0] == buckets[tax[k].0]
                                 + (if MatchesCategory(url, tax[k].1) then [url] else [])
  {
    urlCategories := [];
    filed := buckets;
    var j := 0;
    while j < |tax|
      invariant 0 <= j <= |tax|
      invariant filed.Keys == buckets.Keys
      invariant urlCategories == MatchedCategories(url, tax[..j])
      invariant forall k :: 0 <= k < j ==>
                  filed[tax[k].0] == buckets[tax[k].0]
                                     + (if MatchesCategory(url, tax[k].1) then [url] else [])
      invariant forall k :: j <= k < |tax| ==> filed[tax[k].0] == buckets[tax[k].0]
    {
      var category := tax[j].0;
      var variations := tax[j].1;
      MatchedCategoriesStep(url, tax, j);
      assert forall k :: 0 <= k < |tax| && k != j ==> tax[k].0 != category;
      if MatchesCategory(url, variations) {
        urlCategories := urlCategories + [category];
        filed := filed[category := filed[category] + [url]];
      }
      j := j + 1;
    }
    assert tax[..|tax|] == tax;
  }

  /** `categorize_urls`, with the configuration passed in: one pass over the URLs,
      filing each into the buckets of the categories it matches and, when it
      matches none or several, into the matching side list. */
  method CategorizeUrls(urls: seq<string>, tax: Taxonomy) returns (result: Categorization)
    requires DistinctCategories(tax)
    ensures Categorizes(result, urls, tax)
  {
    var buckets: map<string, seq<string>> := map c | c in Categories(tax) :: [];
    var uncategorized: seq<string> := [];
    var multiple: seq<string> := [];
    var i := 0;
    while i < |urls|
      invariant 0 <= i <= |urls|
      invariant buckets.Keys == Categories(tax)
      invariant forall k :: 0 <= k < |tax| ==> buckets[tax[k].0] == Bucket(urls[..i], tax[k].1)
      invariant uncategorized == Uncategorized(urls[..i], tax)
      invariant multiple == MultiCategorized(urls[..i], tax)
    {
      var url := urls[i];
      var urlCategories;
      urlCategories, buckets := FileUrl(url, tax, buckets);
      forall k | 0 <= k < |tax|
        ensures buckets[tax[k].0] == Bucket(urls[..i + 1], tax[k].1)
      {
        BucketStep(urls, i, tax[k].1);
      }
      SideListsStep(urls, i, tax);
      if |urlCategories| == 0 {
        uncategorized := uncategorized + [url];
      } else if |urlCategories| > 1 {
        multiple := multiple + [url];
      }
      i := i + 1;
    }
    assert urls[..|urls|] == urls;
    result := Categorization(buckets, uncategorized, multiple);
  }

  /** A category matches when one of its variations occurs in the URL. */
  lemma MatchesCategoryMeaning(url: string, variations: seq<string>)
    ensures MatchesCategory(url, variations) <==> exists v :: v in variations && Contains(url, v)
  {
  }

  /** The collected categories are exactly the taxonomy entries that match. */
  lemma {:induction false} MatchedCategoriesMembers(url: string, tax: Taxonomy, c: string)
    ensures c in MatchedCategories(url, tax)
            <==> exists k :: 0 <= k < |tax| && tax[k].0 == c && MatchesCategory(url, tax[k].1)
  {
    if |tax| > 0 {
      var n := |tax| - 1;
      MatchedCategoriesMembers(url, tax[..n], c);
      if c in MatchedCategories(url, tax[..n]) {
        var k :| 0 <= k < n && tax[..n][k].0 == c && MatchesCategory(url, tax[..n][k].1);
        assert tax[k] == tax[..n][k];
      }
      if exists k :: 0 <= k < |tax| && tax[k].0 == c && MatchesCategory(url, tax[k].1) {
        var k :| 0 <= k < |tax| && tax[k].0 == c && MatchesCategory(url, tax[k].1);
        if k < n {
          assert tax[..n][k] == tax[k];
        }
      }
    }
  }

  /** With distinct category names, no category is collected twice. */
  lemma {:induction false} MatchedCategoriesDistinct(url: string, tax: Taxonomy)
    requires DistinctCategories(tax)
    ensures forall a, b :: 0 <= a < b < |MatchedCategories(url, tax)| ==>
              MatchedCategories(url, tax)[a] != MatchedCategories(url, tax)[b]
  {
    if |tax| > 0 {
      var n := |tax| - 1;
      var init := MatchedCategories(url, tax[..n]);
      assert DistinctCategories(tax[..n]);
      MatchedCategoriesDistinct(url, tax[..n]);
      if MatchesCategory(url, tax[n].1) {
        MatchedCategoriesMembers(url, tax[..n], tax[n].0);
        assert forall k :: 0 <= k < n ==> tax[..n][k] == tax[k];
        assert tax[n].0 !in init;
        assert forall a :: 0 <= a < |init| ==> init[a] in init;
      }
    }
  }

  /** A URL is collected into no category exactly when no entry matches it. */
  lemma {:induction false} NoMatchedCategories(url: string, tax: Taxonomy)
    ensures |MatchedCategories(url, tax)| == 0
            <==> forall k :: 0 <= k < |tax| ==> !MatchesCategory(url, tax[k].1)
  {
    if |tax| > 0 {
      var n := |tax| - 1;
      NoMatchedCategories(url, tax[..n]);
      assert forall k :: 0 <= k < n ==> tax[..n][k] == tax[k];
    }
  }

  /** Two or more collected categories come from two distinct matching entries. */
  lemma {:induction false} SeveralMatchedCategoriesWitness(url: string, tax: Taxonomy)
    requires |MatchedCategories(url, tax)| > 1
    ensures exists a, b :: 0 <= a < b < |tax|
                           && MatchesCategory(url, tax[a].1) && MatchesCategory(url, tax[b].1)
  {
    var n := |tax| - 1;
    var init := tax[..n];
    assert forall k :: 0 <= k < n ==> init[k] == tax[k];
    if |MatchedCategories(url, init)| > 1 {
      SeveralMatchedCategoriesWitness(url, init);
      var a, b :| 0 <= a < b < n && MatchesCategory(url, init[a].1) && MatchesCategory(url, init[b].1);
      assert MatchesCategory(url, tax[a].1) && MatchesCategory(url, tax[b].1);
    } else {
      NoMatchedCategories(url, init);
      var a :| 0 <= a < n && MatchesCategory(url, init[a].1);
      assert MatchesCategory(url, tax[a].1) && MatchesCategory(url, tax[n].1);
    }
  }

  /** Two distinct matching entries are both collected. */
  lemma {:induction false} SeveralMatchedCategoriesFromPair(url: string, tax: Taxonomy, a: nat, b: nat)
    requires a < b < |tax| && MatchesCategory(url, tax[a].1) && MatchesCategory(url, tax[b].1)
    ensures |MatchedCategories(url, tax)| > 1
  {
    var n := |tax| - 1;
    var init := tax[..n];
    assert init[a] == tax[a];
    if b < n {
      assert init[b] == tax[b];
      SeveralMatchedCategoriesFromPair(url, init, a, b);
    } else {
      NoMatchedCategories(url, init);
    }
  }

  /** A URL is collected into several categories exactly when two distinct
      entries match it. */
  lemma SeveralMatchedCategories(url: string, tax: Taxonomy)
    ensures |MatchedCategories(url, tax)| > 1
            <==> exists a, b :: 0 <= a < b < |tax|
                                && MatchesCategory(url, tax[a].1) && MatchesCategory(url, tax[b].1)
  {
    if |MatchedCategories(url, tax)| > 1 {
      SeveralMatchedCategoriesWitness(url, tax);
    }
    if exists a, b :: 0 <= a < b < |tax| && MatchesCategory(url, tax[a].1) && MatchesCategory(url, tax[b].1) {
      var a, b :| 0 <= a < b < |tax| && MatchesCategory(url, tax[a].1) && MatchesCategory(url, tax[b].1);
      SeveralMatchedCategoriesFromPair(url, tax, a, b);
    }
  }

  /** The bucket of category `k` is the subsequence of the input made of exactly
      the occurrences in which one of the category's variations occurs. */
  lemma BucketHoldsMatchingUrls(r: Categorization, urls: seq<string>, tax: Taxonomy, k: int)
    requires Categorizes(r, urls, tax)
    requires 0 <= k < |tax|
    ensures exists idx :: && Embedding(idx, r.buckets[tax[k].0], urls)
                          && forall i :: 0 <= i < |urls| ==>
                               (i in idx <==> exists v :: v in tax[k].1 && Contains(urls[i], v))
    ensures forall u :: multiset(r.buckets[tax[k].0])[u]
                        == if MatchesCategory(u, tax[k].1) then multiset(urls)[u] else 0
  {
    var keep := u => MatchesCategory(u, tax[k].1);
    FilterSelectsPositions(urls, keep);
    var idx := KeptPositions(urls, keep);
    forall i | 0 <= i < |urls|
      ensures i in idx <==> exists v :: v in tax[k].1 && Contains(urls[i], v)
    {
      MatchesCategoryMeaning(urls[i], tax[k].1);
    }
    assert Embedding(idx, r.buckets[tax[k].0], urls);
    forall u
      ensures multiset(r.buckets[tax[k].0])[u]
              == if MatchesCategory(u, tax[k].1) then multiset(urls)[u] else 0
    {
      FilterCount(urls, keep, u);
    }
  }

  /** `uncategorized` is the subsequence of the occurrences that no category
      matches, and `multiple_categories` the subsequence of those that two or
      more categories match. */
  lemma SideListsHoldAnomalies(r: Categorization, urls: seq<string>, tax: Taxonomy)
    requires Categorizes(r, urls, tax)
    ensures exists idx :: && Embedding(idx, r.uncategorized, urls)
                          && forall i :: 0 <= i < |urls| ==>
                               (i in idx <==> forall k :: 0 <= k < |tax| ==> !MatchesCategory(urls[i], tax[k].1))
    ensures exists idx :: && Embedding(idx, r.multipleCategories, urls)
                          && forall i :: 0 <= i < |urls| ==>
                               (i in idx <==> exists a, b :: && 0 <= a < b < |tax|
                                                             && MatchesCategory(urls[i], tax[a].1)
                                                             && MatchesCategory(urls[i], tax[b].1))
  {
    var none := u => |MatchedCategories(u, tax)| == 0;
    var several := u => |MatchedCategories(u, tax)| > 1;
    FilterSelectsPositions(urls, none);
    FilterSelectsPositions(urls, several);
    var idx1 := KeptPositions(urls, none);
    var idx2 := KeptPositions(urls, several);
    forall i | 0 <= i < |urls|
      ensures i in idx1 <==> forall k :: 0 <= k < |tax| ==> !MatchesCategory(urls[i], tax[k].1)
      ensures i in idx2 <==> exists a, b :: && 0 <= a < b < |tax|
                                            && MatchesCategory(urls[i], tax[a].1)
                                            && MatchesCategory(urls[i], tax[b].1)
    {
      NoMatchedCategories(urls[i], tax);
      SeveralMatchedCategories(urls[i], tax);
    }
    assert Embedding(idx1, r.uncategorized, urls);
    assert Embedding(idx2, r.multipleCategories, urls);
  }

  /** An input URL is in the bucket of category `k` exactly when the category matches it. */
  lemma InBucketIffMatches(r: Categorization, urls: seq<string>, tax: Taxonomy, k: int, u: string)
    requires Categorizes(r, urls, tax)
    requires 0 <= k < |tax| && u in urls
    ensures u in r.buckets[tax[k].0] <==> MatchesCategory(u, tax[k].1)
  {
    assert multiset(urls)[u] > 0;
    FilterCount(urls, v => MatchesCategory(v, tax[k].1), u);
  }

  /** The buckets holding an input URL are those of the categories matching it. */
  lemma HoldingBuckets(r: Categorization, urls: seq<string>, tax: Taxonomy, u: string)
    requires Categorizes(r, urls, tax)
    requires u in urls
    ensures (set c | c in r.buckets && u in r.buckets[c])
            == (set k | 0 <= k < |tax| && MatchesCategory(u, tax[k].1) :: tax[k].0)
  {
    var holding := set c | c in r.buckets && u in r.buckets[c];
    var matching := set k | 0 <= k < |tax| && MatchesCategory(u, tax[k].1) :: tax[k].0;
    forall c | c in holding
      ensures c in matching
    {
      var k :| 0 <= k < |tax| && tax[k].0 == c;
      InBucketIffMatches(r, urls, tax, k, u);
    }
    forall k | 0 <= k < |tax| && MatchesCategory(u, tax[k].1)
      ensures tax[k].0 in holding
    {
      InBucketIffMatches(r, urls, tax, k, u);
    }
  }

  /** With distinct names, the matching category names number as many as the
      categories collected for the URL. */
  lemma MatchingCategoryCount(u: string, tax: Taxonomy)
    requires DistinctCategories(tax)
    ensures |set k | 0 <= k < |tax| && MatchesCategory(u, tax[k].1) :: tax[k].0|
            == |MatchedCategories(u, tax)|
  {
    var matching := set k | 0 <= k < |tax| && MatchesCategory(u, tax[k].1) :: tax[k].0;
    var cats := MatchedCategories(u, tax);
    forall c
      ensures c in cats <==> c in matching
    {
      MatchedCategoriesMembers(u, tax, c);
    }
    assert matching == set c | c in cats;
    MatchedCategoriesDistinct(u, tax);
    DistinctCardinality(cats);
  }

  /** Where one input URL ends up: in as many buckets as the categories it
      matches, in `uncategorized` exactly when that is none, in
      `multiple_categories` exactly when that is several; so it is never lost and
      never in both side lists. */
  lemma PlacementOfUrl(r: Categorization, urls: seq<string>, tax: Taxonomy, u: string)
    requires DistinctCategories(tax)
    requires Categorizes(r, urls, tax)
    requires u in urls
    ensures var holding := set c | c in r.buckets && u in r.buckets[c];
            && holding == (set k | 0 <= k < |tax| && MatchesCategory(u, tax[k].1) :: tax[k].0)
            && |holding| == |MatchedCategories(u, tax)|
            && (u in r.uncategorized <==> |holding| == 0)
            && (u in r.multipleCategories <==> |holding| > 1)
  {
    HoldingBuckets(r, urls, tax, u);
    MatchingCategoryCount(u, tax);
    assert multiset(urls)[u] > 0;
    FilterCount(urls, v => |MatchedCategories(v, tax)| == 0, u);
    FilterCount(urls, v => |MatchedCategories(v, tax)| > 1, u);
  }

  /** A category with no variations collects nothing. */
  lemma EmptyVariationsCollectNothing(r: Categorization, urls: seq<string>, tax: Taxonomy, k: int)
    requires Categorizes(r, urls, tax)
    requires 0 <= k < |tax| && |tax[k].1| == 0
    ensures r.buckets[tax[k].0] == []
  {
    FilterKeepsNone(urls, u => MatchesCategory(u, tax[k].1));
  }

  /** A category listing the empty string as a variation collects every URL. */
  lemma EmptyVariationCollectsAll(r: Categorization, urls: seq<string>, tax: Taxonomy, k: int)
    requires Categorizes(r, urls, tax)
    requires 0 <= k < |tax| && "" in tax[k].1
    ensures r.buckets[tax[k].0] == urls
  {
    FilterKeepsAll(urls, u => MatchesCategory(u, tax[k].1));
  }
}
