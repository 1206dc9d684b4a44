/** The `/scrape` request without its HTTP and network parts: parameter checks, the
    extraction pipeline over an already fetched and parsed page, and the AND/OR filter. */
module Scrape {
  import opened Wrappers
  import opened Seqs
  import opened Text
  import opened Dom
  import opened Clustering
  import opened Articles

  /** `et` keeps an article that mentions every keyword, `ou` one that mentions any. */
  datatype Logic = Et | Ou

  datatype ParamError = MissingParameters | InvalidLogic

  datatype Params = Params(url: string, keywords: seq<string>, logic: Logic)

  /** Why a request answers with status 400: a parameter check failed, or the scraping
      raised (for instance an address `urljoin` rejects). */
  datatype RequestError = BadParameters(reason: ParamError) | ScrapingFailed

  /** A query parameter Python treats as false: not given, or given empty. */
  function Absent(p: Option<string>): (absent: bool)
    ensures absent <==> p == None || p == Some("")
  {
    p.None? || p.value == ""
  }

  /** `[kw.strip().lower() for kw in keywords.split(',')]`. */
  function KeywordList(keywords: string): (r: seq<string>)
    ensures |r| == |Split(keywords, ',')|
    ensures forall k :: 0 <= k < |r| ==> r[k] == Lower(Strip(Split(keywords, ',')[k]))
  {
    var pieces := Split(keywords, ',');
    seq(|pieces|, k requires 0 <= k < |pieces| => Lower(Strip(pieces[k])))
  }

  /** Every keyword of the list is already stripped, lowercase and free of commas. */
  lemma {:induction false} KeywordListNormalized(keywords: string)
    ensures forall kw :: kw in KeywordList(keywords) ==> Strip(kw) == kw && Lower(kw) == kw && ',' !in kw
  {
    var pieces := Split(keywords, ',');
    var r := KeywordList(keywords);
    forall k | 0 <= k < |r|
      ensures Strip(r[k]) == r[k] && Lower(r[k]) == r[k] && ',' !in r[k]
    {
      var s := Strip(pieces[k]);
      LowerKeepsSpace(s);
      StripUnchanged(Lower(s));
      LowerIdempotent(s);
    }
  }

  /** Lines 20-29 of app.py: a missing or empty `url`, `keywords` or `logic` is rejected
      first; then `logic`, lowercased, must be `et` or `ou`. */
  function ParseParams(url: Option<string>, keywords: Option<string>, logic: Option<string>): (r: Result<Params, ParamError>)
    ensures r == Failure(MissingParameters) <==> Absent(url) || Absent(keywords) || Absent(logic)
    ensures r == Failure(InvalidLogic) <==>
              !Absent(url) && !Absent(keywords) && !Absent(logic) && Lower(logic.value) != "et" && Lower(logic.value) != "ou"
    ensures r.Success? ==>
              && r.value.url == url.value
              && r.value.keywords == KeywordList(keywords.value)
              && (r.value.logic == Et <==> Lower(logic.value) == "et")
              && (r.value.logic == Ou <==> Lower(logic.value) == "ou")
  {
    if Absent(url) || Absent(keywords) || Absent(logic) then Failure(MissingParameters)
    else
      var kws := KeywordList(keywords.value);
      var l := Lower(logic.value);
      if l == "et" then Success(Params(url.value, kws, Et))
      else if l == "ou" then Success(Params(url.value, kws, Ou))
      else Failure(InvalidLogic)
  }

  /** Lines 93-96 of app.py: `all(kw in found ...)` under `et`, `any(...)` under `ou`. */
  function KeepArticle(logic: Logic, kws: seq<string>, found: seq<string>): (keep: bool)
    ensures kws == [] ==> (keep <==> logic == Et)
    ensures logic == Ou && keep ==> kws != [] && found != []
  {
    match logic
    case Et => forall k :: 0 <= k < |kws| ==> kws[k] in found
    case Ou => exists k :: 0 <= k < |kws| && kws[k] in found
  }

  /** The filter over the keywords an article mentions means: under `et` every keyword
      occurs in its title or URL, under `ou` at least one does. */
  lemma KeepArticleMeansMatch(logic: Logic, kws: seq<string>, title: string, url: Option<string>)
    ensures logic == Et ==>
              (KeepArticle(logic, kws, FoundKeywords(kws, title, url))
               <==> forall k :: 0 <= k < |kws| ==> KeywordMatches(kws[k], title, url))
    ensures logic == Ou ==>
              (KeepArticle(logic, kws, FoundKeywords(kws, title, url))
               <==> exists k :: 0 <= k < |kws| && KeywordMatches(kws[k], title, url))
  {
  }

  /** extract_article_info for one request, as a function of the block alone. */
  function Extractor(baseUrl: string, kws: seq<string>, urljoin: UrlJoin): Elem -> Option<ArticleInfo>
  {
    b => ArticleInfoOf(b, baseUrl, kws, urljoin)
  }

  /** The infos of the blocks in order, or `None` as soon as one block's extraction raises. */
  function BlockInfos(blocks: seq<Elem>, baseUrl: string, kws: seq<string>, urljoin: UrlJoin): (r: Option<seq<ArticleInfo>>)
    ensures r.None? <==> exists k :: 0 <= k < |blocks| && ArticleInfoOf(blocks[k], baseUrl, kws, urljoin).None?
    ensures r.Some? ==>
              && |r.value| == |blocks|
              && forall k :: 0 <= k < |blocks| ==> ArticleInfoOf(blocks[k], baseUrl, kws, urljoin) == Some(r.value[k])
  {
    MapAll(blocks, Extractor(baseUrl, kws, urljoin))
  }

  /** Some block's extraction raises exactly when one of the blocks yields no info. */
  lemma BlockInfosFail(blocks: seq<Elem>, baseUrl: string, kws: seq<string>, urljoin: UrlJoin)
    ensures BlockInfos(blocks, baseUrl, kws, urljoin).None? <==>
              exists b :: b in blocks && ArticleInfoOf(b, baseUrl, kws, urljoin).None?
  {
    if exists b :: b in blocks && ArticleInfoOf(b, baseUrl, kws, urljoin).None? {
      var b :| b in blocks && ArticleInfoOf(b, baseUrl, kws, urljoin).None?;
      var k :| 0 <= k < |blocks| && blocks[k] == b;
      assert ArticleInfoOf(blocks[k], baseUrl, kws, urljoin).None?;
    }
  }

  /** Lines 93-96 of app.py: the infos that pass the AND/OR filter, in order, each as
      often as it occurs. */
  function Kept(logic: Logic, kws: seq<string>, infos: seq<ArticleInfo>): (r: seq<ArticleInfo>)
    ensures Subseq(r, infos)
    ensures forall a :: a in r <==> a in infos && KeepArticle(logic, kws, a.keywords)
    ensures forall a :: multiset(r)[a] == if KeepArticle(logic, kws, a.keywords) then multiset(infos)[a] else 0
    decreases |infos|
  {
    if infos == [] then EmptySubseq(infos); []
    else
      var init := infos[..|infos| - 1];
      var last := infos[|infos| - 1];
      var r := Kept(logic, kws, init);
      SubseqSnoc(r, init, last);
      assert infos == init + [last];
      assert multiset(infos) == multiset(init) + multiset{last};
      if KeepArticle(logic, kws, last.keywords) then
        assert multiset(r + [last]) == multiset(r) + multiset{last};
        r + [last]
      else
        r
  }

  /** What the kept infos of a list of blocks say about those blocks: no more of them than
      blocks, each passes the filter and mentions only requested keywords, and every block
      whose info passes the filter is represented. */
  lemma KeptOfBlocks(blocks: seq<Elem>, params: Params, urljoin: UrlJoin, infos: seq<ArticleInfo>)
    requires BlockInfos(blocks, params.url, params.keywords, urljoin) == Some(infos)
    ensures |Kept(params.logic, params.keywords, infos)| <= |blocks|
    ensures forall a :: a in Kept(params.logic, params.keywords, infos) ==>
              KeepArticle(params.logic, params.keywords, a.keywords) && Subseq(a.keywords, params.keywords)
    ensures forall b :: b in blocks && ArticleInfoOf(b, params.url, params.keywords, urljoin).Some? &&
                        KeepArticle(params.logic, params.keywords, ArticleInfoOf(b, params.url, params.keywords, urljoin).value.keywords)
                        ==> ArticleInfoOf(b, params.url, params.keywords, urljoin).value in Kept(params.logic, params.keywords, infos)
    ensures forall a :: a in Kept(params.logic, params.keywords, infos) ==>
              exists b :: b in blocks && ArticleInfoOf(b, params.url, params.keywords, urljoin) == Some(a)
  {
    var r := Kept(params.logic, params.keywords, infos);
    SubseqMembers(r, infos);
    forall a | a in r
      ensures Subseq(a.keywords, params.keywords)
      ensures exists b :: b in blocks && ArticleInfoOf(b, params.url, params.keywords, urljoin) == Some(a)
    {
      var k :| 0 <= k < |infos| && infos[k] == a;
      assert ArticleInfoOf(blocks[k], params.url, params.keywords, urljoin) == Some(a);
      assert blocks[k] in blocks;
    }
    forall b | b in blocks && ArticleInfoOf(b, params.url, params.keywords, urljoin).Some? &&
               KeepArticle(params.logic, params.keywords, ArticleInfoOf(b, params.url, params.keywords, urljoin).value.keywords)
      ensures ArticleInfoOf(b, params.url, params.keywords, urljoin).value in r
    {
      var k :| 0 <= k < |blocks| && blocks[k] == b;
      assert infos[k] in infos;
    }
  }

  /** Lines 56-98 of app.py: the articles of a page, or `None` when some block's
      extraction raises. A page without images has no article; there are never more
      articles than images; an article is kept exactly when its block's info passes the
      AND/OR filter, and only requested keywords are reported. */
  function ArticlesOf(doc: Doc, params: Params, urljoin: UrlJoin): (r: Option<seq<ArticleInfo>>)
    requires WellFormed(doc)
    ensures r.None? <==> exists b :: b in ArticleBlocks(doc) && ArticleInfoOf(b, params.url, params.keywords, urljoin).None?
    ensures Images(doc) == [] ==> r == Some([])
    ensures r.Some? ==> |r.value| <= |Images(doc)|
    ensures r.Some? ==> forall a :: a in r.value ==>
              KeepArticle(params.logic, params.keywords, a.keywords) && Subseq(a.keywords, params.keywords)
    ensures r.Some? ==> forall b :: b in ArticleBlocks(doc) && ArticleInfoOf(b, params.url, params.keywords, urljoin).Some? &&
                          KeepArticle(params.logic, params.keywords, ArticleInfoOf(b, params.url, params.keywords, urljoin).value.keywords)
                          ==> ArticleInfoOf(b, params.url, params.keywords, urljoin).value in r.value
    ensures r.Some? ==> var infos := BlockInfos(ArticleBlocks(doc), params.url, params.keywords, urljoin);
              infos.Some? && Subseq(r.value, infos.value)
    ensures r.Some? ==> forall a :: a in r.value ==>
              exists b :: b in ArticleBlocks(doc) && ArticleInfoOf(b, params.url, params.keywords, urljoin) == Some(a)
  {
    var blocks := ArticleBlocks(doc);
    BlockInfosFail(blocks, params.url, params.keywords, urljoin);
    match BlockInfos(blocks, params.url, params.keywords, urljoin)
    case None => None
    case Some(infos) =>
      KeptOfBlocks(blocks, params, urljoin, infos);
      Some(Kept(params.logic, params.keywords, infos))
  }

  /** Lines 56-98 of app.py, step by step: paths, pruning, separation level, distinct
      blocks, then the info of each block and the AND/OR filter. */
  method ExtractArticles(doc: Doc, params: Params, urljoin: UrlJoin)
    returns (articles: Option<seq<ArticleInfo>>)
    requires WellFormed(doc)
    ensures articles == ArticlesOf(doc, params, urljoin)
  {
    var imgPaths := GetImgDomPaths(doc);
    var filtered := FilterPathsByCommonAncestors(doc, imgPaths);
    SubseqValid(doc, filtered, imgPaths);
    SubseqMembers(filtered, imgPaths);
    var sepIndex := FindSeparationLevel(doc, filtered);
    if sepIndex.None? {
      return Some([]);
    }
    var sep := sepIndex.value;
    assert IndexesAll(filtered, sep) by {
      assert filtered[0] in filtered;
    }
    var blocks := SelectArticleBlocks(doc, filtered, sep);
    assert blocks == ArticleBlocks(doc);

    articles := ExtractKept(blocks, params, urljoin);
  }

  /** Lines 87-96 of app.py: the info of each block in turn, kept when it passes the AND/OR
      filter; the first block whose extraction raises ends the request. */
  method ExtractKept(blocks: seq<Elem>, params: Params, urljoin: UrlJoin)
    returns (articles: Option<seq<ArticleInfo>>)
    ensures var infos := BlockInfos(blocks, params.url, params.keywords, urljoin);
            articles == if infos.None? then None else Some(Kept(params.logic, params.keywords, infos.value))
  {
    var kept: seq<ArticleInfo> := [];
    for k := 0 to |blocks|
      invariant BlockInfos(blocks[..k], params.url, params.keywords, urljoin).Some?
      invariant kept == Kept(params.logic, params.keywords, BlockInfos(blocks[..k], params.url, params.keywords, urljoin).value)
    {
      var info := ExtractArticleInfo(blocks[k], params.url, params.keywords, urljoin);
      ExtractStep(blocks, k, params, urljoin);
      if info.None? {
        return None;
      }
      if KeepArticle(params.logic, params.keywords, info.value.keywords) {
        kept := kept + [info.value];
      }
    }
    assert blocks[..|blocks|] == blocks;
    articles := Some(kept);
  }

  /** One step of the extraction loop: a block that raises makes the whole list fail;
      otherwise the kept infos grow by that block's info exactly when it passes the filter. */
  lemma ExtractStep(blocks: seq<Elem>, k: nat, params: Params, urljoin: UrlJoin)
    requires k < |blocks|
    requires BlockInfos(blocks[..k], params.url, params.keywords, urljoin).Some?
    ensures ArticleInfoOf(blocks[k], params.url, params.keywords, urljoin).None? ==>
              BlockInfos(blocks, params.url, params.keywords, urljoin).None?
    ensures ArticleInfoOf(blocks[k], params.url, params.keywords, urljoin).Some? ==>
              var info := ArticleInfoOf(blocks[k], params.url, params.keywords, urljoin).value;
              var before := BlockInfos(blocks[..k], params.url, params.keywords, urljoin).value;
              var after := BlockInfos(blocks[..k + 1], params.url, params.keywords, urljoin);
              && after == Some(before + [info])
              && Kept(params.logic, params.keywords, after.value) ==
                   if KeepArticle(params.logic, params.keywords, info.keywords)
                   then Kept(params.logic, params.keywords, before) + [info]
                   else Kept(params.logic, params.keywords, before)
  {
    var f := Extractor(params.url, params.keywords, urljoin);
    assert blocks[..k + 1][..k] == blocks[..k];
    assert f(blocks[k]) == ArticleInfoOf(blocks[k], params.url, params.keywords, urljoin);
    if f(blocks[k]).Some? {
      var before := BlockInfos(blocks[..k], params.url, params.keywords, urljoin).value;
      var infos := before + [f(blocks[k]).value];
      assert infos[..|infos| - 1] == before;
    }
  }

  /** The whole request: parameters first, then extraction over `page`, which stands for
      the page fetched from `url` and parsed. Any exception of the extraction answers with
      an error instead of articles. */
  method ScrapePage(url: Option<string>, keywords: Option<string>, logic: Option<string>,
                    page: Doc, urljoin: UrlJoin)
    returns (r: Result<seq<ArticleInfo>, RequestError>)
    requires WellFormed(page)
    ensures ParseParams(url, keywords, logic).Failure? ==>
              r == Failure(BadParameters(ParseParams(url, keywords, logic).error))
    ensures ParseParams(url, keywords, logic).Success? ==>
              var articles := ArticlesOf(page, ParseParams(url, keywords, logic).value, urljoin);
              r == if articles.None? then Failure(ScrapingFailed) else Success(articles.value)
  {
    var params := ParseParams(url, keywords, logic);
    if params.Failure? {
      return Failure(BadParameters(params.error));
    }
    var articles := ExtractArticles(page, params.value, urljoin);
    if articles.None? {
      return Failure(ScrapingFailed);
    }
    return Success(articles.value);
  }
}
