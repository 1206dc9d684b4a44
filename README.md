# Structural article extraction of Web-Scraper-2, modelled in Dafny

Web-Scraper-2 is a small Flask service. Its `/scrape` endpoint takes a page address, a
comma-separated keyword list and a logic word (`et` = AND, `ou` = OR). It fetches the page
and finds the repeated "article" blocks by looking at the shape of the tag tree around the
page's images. For each block it reports an image, a link, a title and the keywords it
mentions. Then it keeps only the blocks that satisfy the AND/OR rule.

This project models that extraction core, which lives in `app.py`:

- **Path extraction** (`get_img_dom_paths`): for every `img`, the chain of nodes from the
  top of the page down to the image.
- **Pruning** (`filter_paths_by_common_ancestors`): keep the longest paths. Then, going from the
  deepest position toward the root, drop every path whose tag at that position is unique
  among the remaining paths, for as long as more than one path is left.
- **Separation level** (`find_separation_level`): scanning from the tail toward the root,
  the first position at which the surviving paths carry different tags.
- **Block selection** (`scrape`, lines 76–83): the node at that level on each path,
  without duplicates, in order of first appearance.
- **Article info** (`extract_article_info`) and the **request checks and AND/OR filter**
  (`scrape`, lines 20–29 and 86–96).

Each loop of the code is a Dafny method with the same loop. Its postcondition equates its
result with a function (`ImgDomPaths`, `CommonAncestorPaths`, `SeparationLevel`, `Dedup`,
`FoundKeywords`, `ArticlesOf`), and the properties of the code are proved about those
functions.

## How the page is represented

- `Dom.Doc` is an arena of nodes in document order. Each node holds its element and the
  index of its parent. `Dom.WellFormed` says that a parent always comes before its children,
  which is what makes the upward walk end. The parser's document object is a node as well:
  it is named `[document]` and has no parent.
- `Dom.Elem` is a tag's value: its name, its attributes and its contents (text pieces and
  child tags). Python's `ancestor not in article_blocks` compares tags with BeautifulSoup's
  `==`, which looks at name, attributes and contents. So the block list compares `Elem`
  values, not arena positions, and two identical blocks collapse into one.
- `Dom.Find` is BeautifulSoup's `find`: the first matching descendant in document order.
  `Dom.GetText` is `get_text(strip=True)`: every text piece below the tag, stripped, then
  concatenated.
- A path (`Clustering.Path`) is a sequence of arena indices, root first. Python's
  `p[i]` for a negative `i` is `Clustering.PyIndex`.
- `urljoin` is passed in as a function parameter of type `Articles.UrlJoin`. It returns
  `None` where Python's `urljoin` raises `ValueError`, for instance on an address such as
  `http://[x`. Nothing else is assumed about it.
- The fetched and parsed page is passed in as `page`/`doc`.

## Behaviour of app.py worth knowing

- **Title.** The title is the stripped text of the first `a` with an `href` whenever such a
  link exists, even if that text is empty. The block's own text is used only when there is
  no such link (app.py:158).
- **Image.** The image is absent when the *first* `img` of the block has no `src`, even if a
  later `img` has one (app.py:152-153).
- **Which node marks the block.** `find_separation_level` returns `-i + 1`, where `-i` is the
  first position from the tail at which the tags differ. So the chosen node is one step
  *toward the image* from the position where the tags differ, not the position itself
  (app.py:147-148).
- **Identical cards collapse into one block.** When all surviving paths carry the same tags
  at every position, nothing differs. This is the usual case for a list of identical cards.
  The level is then minus the path length, so every path selects its first node, the
  `html` element, and the whole page becomes a single block. See
  `Clustering.UniformTagsSeparateAtRoot` and `Clustering.RootLevelOneAncestor`.
- **Empty keywords are allowed.** A keyword list such as `"sport,"` contains an empty
  keyword after the split, and an empty keyword matches every article
  (`Articles.EmptyKeywordAlwaysFound`).
- **Repeated keywords are reported repeatedly.** `keywords=sport,sport` gives a keyword list
  with two entries, and an article that mentions "sport" reports it twice
  (`Articles.FoundKeywords`).
- **One bad address fails the whole request.** `urljoin` raises `ValueError` on a malformed
  `src` or `href` (app.py:153, 156). The exception leaves the article loop, and the
  handler at app.py:107-109 answers with status 400 and no articles at all
  (`Scrape.ScrapePage`, `Scrape.ArticlesOf`).

## Model

| member | source | states |
|---|---|---|
| `Clustering.Chain` | app.py:115-122 | the root-first path of a node ends at that node; each entry is the parent of the next; it starts at the `html` element or at a node without parent; no later entry is an `html` element; every entry is a node of the page |
| `Clustering.ClimbReversed` | app.py:117-122 | reversing the nodes in the order the upward walk visits them gives exactly the root-first path |
| `Clustering.AncestorPath` | app.py:115-122 | the walk up the parent links, with its early stop at `html` and the final reversal, produces the root-first path of the image |
| `Clustering.ImagesBelow` | app.py:114 | the images are listed in strictly increasing document order; each is an `img`; every `img` of the page is listed |
| `Clustering.Images` | app.py:114 | `find_all('img')` lists every `img` of the page once, in document order, and nothing else |
| `Clustering.ImgDomPaths` | app.py:112-123 | one path per image, in document order, each that image's root-first path; no two paths are equal, since each ends at its own image; every path is non-empty and made of nodes of the page |
| `Clustering.GetImgDomPaths` | app.py:112-123 | the loop over the images builds exactly that list of paths |
| `Clustering.MaxLen` | app.py:129 | the result bounds every path length and equals the length of some path; it is 0 for no paths |
| `Clustering.OfLength` | app.py:130 | the longest-path selection keeps the input order and holds exactly the paths of the given length, each with all of its copies |
| `Clustering.NameCount` | app.py:134-135 | the count of a tag never exceeds the number of paths |
| `Clustering.CarrierCounted` | app.py:134-135 | every path counts toward the tag it carries at the index |
| `Clustering.TwoCarriersRepeat` | app.py:134-135 | two different paths with the same tag at the index make that tag's count at least 2 |
| `Clustering.KeepRepeated` | app.py:136 | a path is kept exactly when it is in the list and its tag at the index occurs more than once among all survivors |
| `Clustering.KeepRepeatedSelects` | app.py:136 | the kept paths keep their order |
| `Clustering.KeepRepeatedCounts` | app.py:136 | a kept path keeps every one of its copies and a dropped path keeps none |
| `Clustering.Prune` | app.py:134-136 | after one step, a path survives exactly when it was present and its tag at the index occurs more than once among the paths before the step |
| `Clustering.PruneSelects` | app.py:136 | one step keeps the survivors in their order |
| `Clustering.RepeatedKeptEverywhere` | app.py:134-136 | every path that carries a repeated tag survives the step, so the tag's count is unchanged |
| `Clustering.NoSingleSurvivor` | app.py:133-137 | a pruning step never leaves exactly one path |
| `Clustering.PruneBelow` | app.py:132-137 | the closed form of the pruning loop: every path that survives it was one of the paths it started from |
| `Clustering.PruneBelowSelects` | app.py:132-137 | the paths that survive the whole loop are an order-preserving selection of the paths it started from |
| `Clustering.PruneBelowNoSingle` | app.py:132-137 | the loop ends with a single path only when it started with a single path |
| `Clustering.TwinsSurvive` | app.py:132-137 | two different paths with the same tags at every position the loop looks at both survive the loop |
| `Clustering.PruneLoop` | app.py:132-137 | the while loop, from position `max_len - 1` toward the root and stopping at one path, computes exactly the pruning described by the rows above |
| `Clustering.CommonAncestorPaths` | app.py:125-138 | no paths give none; the result is an order-preserving selection of the input; all of its paths have the maximum length; a single survivor means only one path had the maximum length |
| `Clustering.TwinsSurviveFilter` | app.py:125-138 | two different maximum-length paths with the same tag at every position both survive the filter |
| `Clustering.FilterPathsByCommonAncestors` | app.py:125-138 | the method returns exactly the paths the filter keeps, as the two rows above describe them |
| `Clustering.SeparationLevel` | app.py:140-149 | no level exactly when there are no paths; otherwise the one level described in the next row |
| `Clustering.FindSeparationLevel` | app.py:140-149 | no level exactly when there are no paths; otherwise the level lies in `[-L, 0]` and is `-i + 1` for the first `i` from the tail where the tags differ, or `-L` when they never differ |
| `Clustering.LevelFrom` | app.py:145-149 | the scan from the `i`-th position from the tail onward, once the tags agree at the positions before it, ends at a level that meets that description |
| `Clustering.SeparationLevelUnique` | app.py:144-149 | at most one level fits the description of `FindSeparationLevel` |
| `Clustering.UniformTagsSeparateAtRoot` | app.py:145-149 | paths with the same tags at every position get level `-L`, which selects each path's first node |
| `Clustering.PyIndex` | app.py:78-81 | Python's `path[sep_index]`: a negative index counts back from the end of the path, a non-negative one from the start, and the position read is always inside the path |
| `Clustering.Ancestors` | app.py:77-81 | one element per path, in path order; entry `k` is the element of the node at Python index `sep_index` of path `k` |
| `Clustering.SelectArticleBlocks` | app.py:76-83 | the block list has no duplicates; it holds exactly the selected ancestors of the paths; it is ordered by first appearance |
| `Clustering.ArticleBlocks` | app.py:56-83 | a page without images has no blocks; there are never more blocks than images; no block occurs twice |
| `Clustering.RootLevelOneAncestor` | app.py:76-83 | at level `-L`, paths that share their first node all select that node's element |
| `Seqs.Reverse` | app.py:122 | `path[::-1]`: the same length, with entry `k` being entry `len - 1 - k` of the input |
| `Seqs.Dedup` | app.py:82-83 | the distinct elements, each once, exactly those of the input, in order of first appearance, never more than the input |
| `Articles.UrlText` | app.py:161 | the URL matched against is the lowercase URL, or `""` when there is none |
| `Articles.FoundKeywords` | app.py:160-166 | the found keywords keep the input order; a keyword is in the result exactly when its lowercase form is in the lowercase title or the lowercase URL; a found keyword appears as often as it was requested |
| `Articles.KeywordMatches` | app.py:164-165 | a keyword that matches is no longer than the title or the URL it was found in |
| `Articles.KeywordMatchesAt` | app.py:165 | a keyword matches exactly when its lowercase form occurs at some position of the lowercase title or URL |
| `Articles.EmptyKeywordAlwaysFound` | app.py:163-166 | an empty keyword is found in every article |
| `Articles.MissingUrlIsEmpty` | app.py:161 | a missing URL is matched like the empty string |
| `Articles.MatchingIgnoresKeywordCase` | app.py:164 | a keyword and its lowercase form match the same articles |
| `Articles.ArticleInfoOf` | app.py:151-173 | the extraction fails exactly when resolving the first `img`'s `src` or the first linked `href` fails; otherwise the image is absent exactly when there is no `img` or it lacks `src` and is the resolved `src` otherwise; the url is absent exactly when no `a` has an `href` and is the resolved `href` otherwise; the title is that link's text, or the block's text without a link; the keywords are the found keywords of that title and url |
| `Articles.ExtractArticleInfo` | app.py:151-173 | the method, with its early exit on a failed `urljoin`, returns exactly the info just described |
| `Articles.CollectKeywords` | app.py:160-166 | the keyword loop collects exactly the found keywords |
| `Text.Strip` | app.py:24 | the result is a slice of the input that neither starts nor ends with whitespace, and everything cut from either end is whitespace |
| `Text.Lower` | app.py:25 | lowercasing keeps the length and lowercases each ASCII capital letter, leaving every other character as it is |
| `Text.LowerIdempotent` | app.py:164 | lowercasing an already lowercase string changes nothing |
| `Text.Contains` | app.py:165 | the empty string is in every string, and a string is only found in one at least as long |
| `Text.ContainsIsOccurrence` | app.py:165 | Python's `in` on strings holds exactly when the needle occurs at some position |
| `Text.Split` | app.py:24 | splitting gives at least one piece; no piece contains the separator; joining the pieces with the separator gives back the input |
| `Text.SplitOfPieces` | app.py:24 | splitting re-joined pieces that hold no separator gives back those pieces |
| `Dom.FirstMatch` | app.py:152-155 | `find` over a list returns nothing exactly when nothing matches; otherwise a matching element with no match before it |
| `Dom.Find` | app.py:152-155 | `find` returns nothing exactly when no descendant matches; what it returns is a matching descendant, and no descendant before it in document order matches |
| `Dom.TextFromStrings` | app.py:158 | the text gathered in one walk of the tree equals the tag's text pieces, each stripped, concatenated |
| `Dom.GetText` | app.py:158 | `get_text(strip=True)` is the tag's text pieces in document order, each stripped, concatenated |
| `Scrape.Absent` | app.py:20 | a parameter counts as missing exactly when it is not given or given empty |
| `Scrape.KeywordList` | app.py:24 | the keyword list has one entry per comma-separated piece of the parameter, empty pieces included, and entry `k` is piece `k` stripped and lowercased |
| `Scrape.KeywordListNormalized` | app.py:24 | every keyword in the list is stripped, lowercase and free of commas |
| `Scrape.ParseParams` | app.py:14-29 | a missing or empty `url`, `keywords` or `logic` is rejected as missing; otherwise a `logic` that lowercases to neither `et` nor `ou` is rejected as invalid; otherwise the request carries the url, the normalised keyword list and the AND/OR choice |
| `Scrape.KeepArticle` | app.py:93-96 | with no keywords, `et` keeps every article and `ou` none; an article kept under `ou` mentions at least one keyword |
| `Scrape.KeepArticleMeansMatch` | app.py:93-96 | under `et` an article is kept exactly when every keyword matches its title or URL; under `ou`, exactly when at least one does |
| `Scrape.BlockInfos` | app.py:88-89 | the infos of the blocks fail exactly when some block's extraction fails; otherwise there is one info per block, in block order, each that block's info |
| `Scrape.BlockInfosFail` | app.py:88-89 | the infos fail exactly when some block yields no info |
| `Scrape.Kept` | app.py:92-96 | the kept infos keep their order; an info is kept exactly when it passes the AND/OR rule; a kept info keeps all of its copies |
| `Scrape.KeptOfBlocks` | app.py:87-96 | there are no more kept infos than blocks; each passes the AND/OR rule, reports only requested keywords and is the info of one of the blocks; the info of every block that passes is kept |
| `Scrape.ArticlesOf` | app.py:56-98 | the page's articles fail exactly when some block's extraction fails; a page without images has none; there are never more articles than images; the articles are an order-preserving selection of the blocks' infos, each the info of one of the page's blocks; an article is kept exactly when its block's info passes the AND/OR rule, and it reports only requested keywords |
| `Scrape.ExtractStep` | app.py:88-96 | one turn of the article loop: a failing block fails the whole list; otherwise the list grows by that block's info, which is kept exactly when it passes the rule |
| `Scrape.ExtractKept` | app.py:87-96 | the article loop returns exactly the kept infos of the blocks, or fails when one block fails |
| `Scrape.ExtractArticles` | app.py:56-98 | the pipeline of paths, filter, separation level, blocks and article loop returns exactly the page's articles |
| `Scrape.ScrapePage` | app.py:12-109 | bad parameters fail with their parameter error; otherwise the request fails with a scraping error exactly when some block's extraction fails, and in every other case succeeds with exactly the page's articles |

## Left out

- Flask routing, CORS, JSON responses, status codes and the `print` logging (app.py:1-22, 101-109, 176-177). These are HTTP plumbing.
- `requests.get`, its timeout and the Content-Type check (app.py:33-41). This is network I/O; the fetched and parsed page is a parameter.
- HTML parsing by BeautifulSoup (app.py:42). The arena and the element values are given, and the model does not require them to describe the same tree: nothing proved here depends on that.
- The favicon lookup and the site-name derivation (app.py:45-53). These are library URL handling, and neither feeds the articles. The `urljoin` of the favicon address can raise as well; that failure path is not modelled.
- `urljoin` itself is a parameter: the model says nothing about what the resolved addresses look like, only that a failure ends the request.
- `str.lower` is modelled for ASCII letters only. `str.strip` is modelled with the whitespace set of Python's `str.isspace`.
- Comments and other non-text strings that `get_text` skips are not represented; element contents are only text pieces and child tags.
- The catch-all `except Exception` (app.py:107-109) is modelled only for the exceptions of the modelled core, which are the `urljoin` failures (`Scrape.RequestError.ScrapingFailed`). Network exceptions belong to the fetch, which is left out.
- `Scrape.ScrapePage`: returns only the articles; the `site_image` and `site_name` fields of the answer, and the early answer without articles when no level is found, are not modelled apart from the articles being empty then.
- `Clustering.FindSeparationLevel`: requires all paths to have the same length, as the filtered paths do; with unequal lengths the Python code can raise `IndexError`, and that case is not modelled.
