/** What is read out of one article block (extract_article_info): image, link, title and
    the keywords it mentions. */
module Articles {
  import opened Wrappers
  import opened Seqs
  import opened Text
  import opened Dom

  /** One candidate article. `image` and `url` are absolute addresses when present. */
  datatype ArticleInfo = ArticleInfo(image: Option<string>, title: string, url: Option<string>, keywords: seq<string>)

  /** `urllib.parse.urljoin(base, address)`: the resolved address, or `None` where Python
      raises `ValueError` (a malformed address such as `http://[x`). */
  type UrlJoin = (string, string) -> Option<string>

  /** The URL text matching looks at: its lowercase form, or "" when there is no URL. */
  function UrlText(url: Option<string>): (t: string)
    ensures url.None? ==> t == ""
    ensures url.Some? ==> t == Lower(url.value)
  {
    if url.Some? && url.value != "" then Lower(url.value) else ""
  }

  /** The lowercase keyword is a substring of the lowercase title or of the lowercase URL,
      so a keyword that matches is no longer than the text it was found in. */
  predicate KeywordMatches(kw: string, title: string, url: Option<string>)
    ensures KeywordMatches(kw, title, url) ==> |kw| <= |title| || |kw| <= |UrlText(url)|
  {
    Contains(Lower(title), Lower(kw)) || Contains(UrlText(url), Lower(kw))
  }

  /** The keywords that match, in their input order, each as often as it was requested. */
  function FoundKeywords(kws: seq<string>, title: string, url: Option<string>): (r: seq<string>)
    ensures Subseq(r, kws)
    ensures forall kw :: kw in r <==> kw in kws && KeywordMatches(kw, title, url)
    ensures forall kw :: multiset(r)[kw] == if KeywordMatches(kw, title, url) then multiset(kws)[kw] else 0
    decreases |kws|
  {
    if kws == [] then EmptySubseq(kws); []
    else
      var init := kws[..|kws| - 1];
      var last := kws[|kws| - 1];
      var r := FoundKeywords(init, title, url);
      SubseqSnoc(r, init, last);
      assert kws == init + [last];
      assert multiset(kws) == multiset(init) + multiset{last};
      if KeywordMatches(last, title, url) then
        assert multiset(r + [last]) == multiset(r) + multiset{last};
        r + [last]
      else
        r
  }

  /** A keyword is found exactly when its lowercase form occurs at some position of the
      lowercase title or URL. */
  lemma KeywordMatchesAt(kw: string, title: string, url: Option<string>)
    ensures KeywordMatches(kw, title, url) <==>
              (exists i :: 0 <= i <= |title| && OccursAt(Lower(title), Lower(kw), i))
              || (exists i :: 0 <= i <= |UrlText(url)| && OccursAt(UrlText(url), Lower(kw), i))
  {
    ContainsIsOccurrence(Lower(title), Lower(kw));
    ContainsIsOccurrence(UrlText(url), Lower(kw));
  }

  /** An empty keyword (as `"a,"` yields after splitting) is found in every article. */
  lemma EmptyKeywordAlwaysFound(kws: seq<string>, title: string, url: Option<string>)
    requires "" in kws
    ensures "" in FoundKeywords(kws, title, url)
  {
    assert Lower("") == "";
  }

  /** A missing URL is matched as the empty string. */
  lemma MissingUrlIsEmpty(kw: string, title: string)
    ensures KeywordMatches(kw, title, None) <==> KeywordMatches(kw, title, Some(""))
  {
  }

  /** Lowercasing a keyword a second time changes nothing, so the lowercase keyword
      list the request parser builds matches the same way. */
  lemma MatchingIgnoresKeywordCase(kw: string, title: string, url: Option<string>)
    ensures KeywordMatches(Lower(kw), title, url) <==> KeywordMatches(kw, title, url)
  {
    LowerIdempotent(kw);
  }

  /** What extract_article_info returns for a block, or `None` when resolving the image or
      the link address raises. Image: `src` of the first `img` below the block, resolved;
      absent when there is no `img` or that first one has no `src`. Link: `href` of the first
      `a` that has one, resolved. Title: the stripped text of that link, even when empty, or
      of the whole block without a link. Keywords: those that occur in the title or the link. */
  function ArticleInfoOf(block: Elem, baseUrl: string, keywords: seq<string>, urljoin: UrlJoin): (r: Option<ArticleInfo>)
    ensures var img := Find(block, "img", None);
            var link := Find(block, "a", Some("href"));
            && (r.None? <==>
                  (img.Some? && "src" in img.value.attrs && urljoin(baseUrl, img.value.attrs["src"]).None?)
                  || (link.Some? && urljoin(baseUrl, link.value.attrs["href"]).None?))
            && (r.Some? ==>
                  && (r.value.image.None? <==> img.None? || "src" !in img.value.attrs)
                  && (r.value.image.Some? ==> urljoin(baseUrl, img.value.attrs["src"]) == r.value.image)
                  && (r.value.url.None? <==> link.None?)
                  && (r.value.url.Some? ==> urljoin(baseUrl, link.value.attrs["href"]) == r.value.url)
                  && r.value.title == (if link.Some? then GetText(link.value) else GetText(block))
                  && r.value.keywords == FoundKeywords(keywords, r.value.title, r.value.url))
  {
    var img := Find(block, "img", None);
    var image := if img.Some? && "src" in img.value.attrs then urljoin(baseUrl, img.value.attrs["src"]) else None;
    var link := Find(block, "a", Some("href"));
    var url := if link.Some? then urljoin(baseUrl, link.value.attrs["href"]) else None;
    if (img.Some? && "src" in img.value.attrs && image.None?) || (link.Some? && url.None?) then None
    else
      var title := if link.Some? then GetText(link.value) else GetText(block);
      Some(ArticleInfo(image, title, url, FoundKeywords(keywords, title, url)))
  }

  /** extract_article_info: finds the image and the link, resolves their addresses (either
      can raise), takes the title, and collects the keywords the title or the link mention. */
  method ExtractArticleInfo(block: Elem, baseUrl: string, keywords: seq<string>, urljoin: UrlJoin)
    returns (info: Option<ArticleInfo>)
    ensures info == ArticleInfoOf(block, baseUrl, keywords, urljoin)
  {
    var img := Find(block, "img", None);
    var imageUrl: Option<string> := None;
    if img.Some? && "src" in img.value.attrs {
      imageUrl := urljoin(baseUrl, img.value.attrs["src"]);
      if imageUrl.None? {
        return None;
      }
    }

    var link := Find(block, "a", Some("href"));
    var url: Option<string> := None;
    if link.Some? {
      url := urljoin(baseUrl, link.value.attrs["href"]);
      if url.None? {
        return None;
      }
    }

    var title := if link.Some? then GetText(link.value) else GetText(block);

    var found := CollectKeywords(keywords, title, url);
    info := Some(ArticleInfo(imageUrl, title, url, found));
  }

  /** Lines 160-166 of app.py: the keywords whose lowercase form occurs in the lowercase
      title or the lowercase link, collected in order. */
  method CollectKeywords(keywords: seq<string>, title: string, url: Option<string>) returns (found: seq<string>)
    ensures found == FoundKeywords(keywords, title, url)
  {
    var titleLower := Lower(title);
    var urlLower := if url.Some? && url.value != "" then Lower(url.value) else "";
    found := [];
    for k := 0 to |keywords|
      invariant found == FoundKeywords(keywords[..k], title, url)
    {
      var kw := keywords[k];
      var kwLower := Lower(kw);
      assert keywords[..k + 1][..k] == keywords[..k];
      if Contains(titleLower, kwLower) || Contains(urlLower, kwLower) {
        found := found + [kw];
      }
    }
    assert keywords[..|keywords|] == keywords;
  }
}
