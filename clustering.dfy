/** The structural clustering of app.py: ancestor paths of the images, pruning to the
    paths that repeat, the separation level, and the distinct article blocks. */
module Clustering {
  import opened Wrappers
  import opened Seqs
  import opened Dom

  /** Arena indices of nodes, root first. */
  type Path = seq<nat>

  // ---------------------------------------------------------------------------
  // Path extraction (get_img_dom_paths)
  // ---------------------------------------------------------------------------

  /** The upward walk stops at the html element, or at a node without parent. */
  predicate StopsAt(doc: Doc, i: nat)
    requires i < |doc.nodes|
  {
    Name(doc, i) == "html" || doc.nodes[i].parent.None?
  }

  /** The nodes the upward walk from `i` visits, in visiting order (leaf first). */
  function Climb(doc: Doc, i: nat): seq<nat>
    requires WellFormed(doc) && i < |doc.nodes|
    decreases i
  {
    if StopsAt(doc, i) then [i] else [i] + Climb(doc, doc.nodes[i].parent.value)
  }

  /** Root-first ancestor path of node `i`: it ends at `i`, starts where the walk stops,
      links each entry to the next as its parent, and passes no html element on the way. */
  function Chain(doc: Doc, i: nat): (p: Path)
    requires WellFormed(doc) && i < |doc.nodes|
    ensures |p| >= 1 && p[|p| - 1] == i
    ensures forall k :: 0 <= k < |p| ==> p[k] < |doc.nodes|
    ensures StopsAt(doc, p[0])
    ensures forall k :: 0 <= k < |p| - 1 ==> doc.nodes[p[k + 1]].parent == Some(p[k])
    ensures forall k :: 1 <= k < |p| ==> Name(doc, p[k]) != "html"
    decreases i
  {
    if StopsAt(doc, i) then [i] else Chain(doc, doc.nodes[i].parent.value) + [i]
  }

  /** Reversing the visiting order of the walk gives the root-first path. */
  lemma {:induction false} ClimbReversed(doc: Doc, i: nat)
    requires WellFormed(doc) && i < |doc.nodes|
    ensures Reverse(Climb(doc, i)) == Chain(doc, i)
    decreases i
  {
    if !StopsAt(doc, i) {
      var up := doc.nodes[i].parent.value;
      ClimbReversed(doc, up);
      assert Reverse(Climb(doc, i)) == Reverse(Climb(doc, up)) + [i];
    }
  }

  /** The `img` nodes among the first `n` nodes of the arena, in document order. */
  function ImagesBelow(doc: Doc, n: nat): (r: seq<nat>)
    requires n <= |doc.nodes|
    ensures forall k :: 0 <= k < |r| ==> r[k] < n && Name(doc, r[k]) == "img"
    ensures forall j :: 0 <= j < n && Name(doc, j) == "img" ==> j in r
    ensures forall a, b :: 0 <= a < b < |r| ==> r[a] < r[b]
  {
    if n == 0 then []
    else ImagesBelow(doc, n - 1) + (if Name(doc, n - 1) == "img" then [n - 1] else [])
  }

  /** `soup.find_all('img')`: every `img` node of the page, in document order. */
  function Images(doc: Doc): (r: seq<nat>)
    ensures forall k :: 0 <= k < |r| ==> r[k] < |doc.nodes| && Name(doc, r[k]) == "img"
    ensures forall j :: 0 <= j < |doc.nodes| && Name(doc, j) == "img" ==> j in r
    ensures forall a, b :: 0 <= a < b < |r| ==> r[a] < r[b]
  {
    ImagesBelow(doc, |doc.nodes|)
  }

  /** The list get_img_dom_paths returns: one root-first path per image, in document
      order. Each path ends at its own image, so no two of them are equal. */
  function ImgDomPaths(doc: Doc): (r: seq<Path>)
    requires WellFormed(doc)
    ensures |r| == |Images(doc)|
    ensures forall k :: 0 <= k < |r| ==> r[k] == Chain(doc, Images(doc)[k])
    ensures NoDuplicates(r)
    ensures ValidPaths(doc, r)
    ensures forall p :: p in r ==> |p| >= 1
  {
    var imgs := Images(doc);
    var r := seq(|imgs|, k requires 0 <= k < |imgs| => Chain(doc, imgs[k]));
    ImagePathsDistinct(doc, r);
    r
  }

  lemma ImagePathsDistinct(doc: Doc, r: seq<Path>)
    requires WellFormed(doc)
    requires |r| == |Images(doc)| && forall k :: 0 <= k < |r| ==> r[k] == Chain(doc, Images(doc)[k])
    ensures NoDuplicates(r) && ValidPaths(doc, r) && forall p :: p in r ==> |p| >= 1
  {
    var imgs := Images(doc);
    forall a, b | 0 <= a < b < |r|
      ensures r[a] != r[b]
    {
      assert r[a][|r[a]| - 1] == imgs[a] < imgs[b] == r[b][|r[b]| - 1];
    }
    forall p | p in r
      ensures |p| >= 1 && forall k :: 0 <= k < |p| ==> p[k] < |doc.nodes|
    {
      var k :| 0 <= k < |r| && r[k] == p;
    }
  }

  /** One step of the walk: it stops at `i`, or goes on from the parent of `i`. */
  lemma ClimbStep(doc: Doc, i: nat)
    requires WellFormed(doc) && i < |doc.nodes|
    ensures StopsAt(doc, i) ==> Climb(doc, i) == [i]
    ensures !StopsAt(doc, i) ==>
      && doc.nodes[i].parent.value < i
      && Climb(doc, i) == [i] + Climb(doc, doc.nodes[i].parent.value)
  {
  }

  /** The body of the loop over the images: climb the parent links from `img`, collecting
      each node and stopping after the html element or when there is no parent, then
      reverse, giving the root-first ancestor path. */
  method AncestorPath(doc: Doc, img: nat) returns (path: Path)
    requires WellFormed(doc) && img < |doc.nodes|
    ensures path == Chain(doc, img)
  {
    var up: seq<nat> := [];
    var current: Option<nat> := Some(img);
    while current.Some?
      invariant current.Some? ==> current.value < |doc.nodes| && up + Climb(doc, current.value) == Climb(doc, img)
      invariant current.None? ==> up == Climb(doc, img)
      decreases if current.Some? then current.value + 1 else 0
    {
      var c := current.value;
      ClimbStep(doc, c);
      ghost var before := up;
      up := up + [c];
      if Name(doc, c) == "html" {
        break;
      }
      current := doc.nodes[c].parent;
      if current.Some? {
        assert up + Climb(doc, current.value) == before + Climb(doc, c);
      }
    }
    ClimbReversed(doc, img);
    path := Reverse(up);
  }

  /** One path per image, in document order, each the image's root-first ancestor path. */
  method GetImgDomPaths(doc: Doc) returns (imgPaths: seq<Path>)
    requires WellFormed(doc)
    ensures imgPaths == ImgDomPaths(doc)
  {
    imgPaths := [];
    for i := 0 to |doc.nodes|
      invariant PathsOfImagesBelow(doc, imgPaths, i)
    {
      ghost var before := imgPaths;
      if Name(doc, i) == "img" {
        var path := AncestorPath(doc, i);
        imgPaths := imgPaths + [path];
      }
      ImagePathsStep(doc, i, before, imgPaths);
    }
    ImgDomPathsPointwise(doc, imgPaths);
  }

  /** `ps` holds the ancestor paths of the images among the first `n` nodes, in order. */
  predicate PathsOfImagesBelow(doc: Doc, ps: seq<Path>, n: nat)
    requires WellFormed(doc) && n <= |doc.nodes|
  {
    && |ps| == |ImagesBelow(doc, n)|
    && forall k :: 0 <= k < |ps| ==> ps[k] == Chain(doc, ImagesBelow(doc, n)[k])
  }

  /** One turn of the loop over the nodes: an image adds its path, any other node nothing. */
  lemma ImagePathsStep(doc: Doc, i: nat, before: seq<Path>, after: seq<Path>)
    requires WellFormed(doc) && i < |doc.nodes|
    requires PathsOfImagesBelow(doc, before, i)
    requires after == before + (if Name(doc, i) == "img" then [Chain(doc, i)] else [])
    ensures PathsOfImagesBelow(doc, after, i + 1)
  {
    var below := ImagesBelow(doc, i);
    var upTo := ImagesBelow(doc, i + 1);
    assert upTo == below + (if Name(doc, i) == "img" then [i] else []);
    forall k | 0 <= k < |after|
      ensures after[k] == Chain(doc, upTo[k])
    {
      if k < |before| {
        assert after[k] == before[k] && upTo[k] == below[k];
      } else {
        assert after[k] == Chain(doc, i) && upTo[k] == i;
      }
    }
  }

  /** One path per image, pointwise, is the list of image paths. */
  lemma ImgDomPathsPointwise(doc: Doc, ps: seq<Path>)
    requires WellFormed(doc)
    requires PathsOfImagesBelow(doc, ps, |doc.nodes|)
    ensures ps == ImgDomPaths(doc)
  {
    var r := ImgDomPaths(doc);
    assert |ps| == |r|;
    forall k | 0 <= k < |ps|
      ensures ps[k] == r[k]
    {
    }
  }

  // ---------------------------------------------------------------------------
  // Pruning (filter_paths_by_common_ancestors)
  // ---------------------------------------------------------------------------

  /** Every entry of every path is a node of the arena. */
  predicate ValidPaths(doc: Doc, paths: seq<Path>)
  {
    forall p :: p in paths ==> forall k :: 0 <= k < |p| ==> p[k] < |doc.nodes|
  }

  /** Every path has a node at position `idx`. */
  predicate DeepEnough(doc: Doc, paths: seq<Path>, idx: nat)
  {
    forall p :: p in paths ==> idx < |p| && p[idx] < |doc.nodes|
  }

  /** `max(len(p) for p in paths)`, with 0 for no paths. */
  function MaxLen(paths: seq<Path>): (m: nat)
    ensures forall k :: 0 <= k < |paths| ==> |paths[k]| <= m
    ensures paths != [] ==> exists k :: 0 <= k < |paths| && |paths[k]| == m
    ensures paths == [] ==> m == 0
  {
    if paths == [] then 0
    else
      var m := MaxLen(paths[1..]);
      assert forall k :: 1 <= k < |paths| ==> paths[k] == paths[1..][k - 1];
      if |paths[0]| >= m then |paths[0]| else m
  }

  /** `[p for p in paths if len(p) == n]`: in order, each path of length `n` with all of its
      copies, and nothing else. */
  function OfLength(paths: seq<Path>, n: nat): (r: seq<Path>)
    ensures Subseq(r, paths)
    ensures forall p :: p in r <==> p in paths && |p| == n
    ensures forall p :: multiset(r)[p] == if |p| == n then multiset(paths)[p] else 0
  {
    if paths == [] then EmptySubseq(paths); []
    else
      var rest := OfLength(paths[1..], n);
      assert paths == [paths[0]] + paths[1..];
      SubseqCons(paths[0], rest, paths[1..]);
      assert forall p :: p in paths <==> p == paths[0] || p in paths[1..];
      assert multiset(paths) == multiset{paths[0]} + multiset(paths[1..]);
      if |paths[0]| == n then
        assert multiset([paths[0]] + rest) == multiset{paths[0]} + multiset(rest);
        [paths[0]] + rest
      else
        rest
  }

  /** How many of `paths` carry tag `name` at position `idx` (the `Counter` of app.py). */
  function NameCount(doc: Doc, paths: seq<Path>, idx: nat, name: string): (c: nat)
    requires DeepEnough(doc, paths, idx)
    ensures c <= |paths|
  {
    if paths == [] then 0
    else
      var last := paths[|paths| - 1];
      NameCount(doc, paths[..|paths| - 1], idx, name) + (if Name(doc, last[idx]) == name then 1 else 0)
  }

  /** A path in the list counts toward its own tag. */
  lemma {:induction false} CarrierCounted(doc: Doc, paths: seq<Path>, idx: nat, p: Path)
    requires DeepEnough(doc, paths, idx) && p in paths
    ensures NameCount(doc, paths, idx, Name(doc, p[idx])) >= 1
    decreases |paths|
  {
    var init := paths[..|paths| - 1];
    if paths[|paths| - 1] != p {
      assert paths == init + [paths[|paths| - 1]];
      assert p in init;
      CarrierCounted(doc, init, idx, p);
    }
  }

  /** Two different paths with the same tag at `idx` make that tag repeated. */
  lemma {:induction false} TwoCarriersRepeat(doc: Doc, paths: seq<Path>, idx: nat, p: Path, q: Path)
    requires DeepEnough(doc, paths, idx)
    requires p in paths && q in paths && p != q
    requires Name(doc, p[idx]) == Name(doc, q[idx])
    ensures NameCount(doc, paths, idx, Name(doc, p[idx])) >= 2
    decreases |paths|
  {
    var init := paths[..|paths| - 1];
    var last := paths[|paths| - 1];
    assert paths == init + [last];
    assert forall x :: x in paths ==> x == last || x in init;
    if last == p {
      CarrierCounted(doc, init, idx, q);
    } else if last == q {
      CarrierCounted(doc, init, idx, p);
    } else {
      TwoCarriersRepeat(doc, init, idx, p, q);
    }
  }

  /** The paths of `rest` whose tag at `idx` occurs more than once among `all`, in order,
      each with all of its copies. */
  function KeepRepeated(doc: Doc, all: seq<Path>, rest: seq<Path>, idx: nat): (r: seq<Path>)
    requires DeepEnough(doc, all, idx) && DeepEnough(doc, rest, idx)
    ensures forall p {:trigger p in r} :: p in r <==> p in rest && NameCount(doc, all, idx, Name(doc, p[idx])) > 1
  {
    if rest == [] then []
    else
      var init := rest[..|rest| - 1];
      var last := rest[|rest| - 1];
      var kept := KeepRepeated(doc, all, init, idx);
      assert forall p :: p in rest <==> p == last || p in init by {
        assert rest == init + [last];
      }
      if NameCount(doc, all, idx, Name(doc, last[idx])) > 1 then kept + [last] else kept
  }

  /** The kept paths appear in the order they have in `rest`. */
  lemma {:induction false} KeepRepeatedSelects(doc: Doc, all: seq<Path>, rest: seq<Path>, idx: nat)
    requires DeepEnough(doc, all, idx) && DeepEnough(doc, rest, idx)
    ensures Subseq(KeepRepeated(doc, all, rest, idx), rest)
    decreases |rest|
  {
    if rest == [] {
      EmptySubseq(rest);
    } else {
      var init := rest[..|rest| - 1];
      var last := rest[|rest| - 1];
      assert rest == init + [last];
      KeepRepeatedSelects(doc, all, init, idx);
      SubseqSnoc(KeepRepeated(doc, all, init, idx), init, last);
    }
  }

  /** A kept path keeps every one of its copies; a dropped one keeps none. */
  lemma {:induction false} KeepRepeatedCounts(doc: Doc, all: seq<Path>, rest: seq<Path>, idx: nat, p: Path)
    requires DeepEnough(doc, all, idx) && DeepEnough(doc, rest, idx) && p in rest
    ensures multiset(KeepRepeated(doc, all, rest, idx))[p]
         == if NameCount(doc, all, idx, Name(doc, p[idx])) > 1 then multiset(rest)[p] else 0
    decreases |rest|
  {
    var init := rest[..|rest| - 1];
    var last := rest[|rest| - 1];
    var kept := KeepRepeated(doc, all, init, idx);
    assert rest == init + [last];
    assert multiset(rest) == multiset(init) + multiset{last};
    if p in init {
      KeepRepeatedCounts(doc, all, init, idx, p);
    } else {
      assert p !in kept;
    }
    if NameCount(doc, all, idx, Name(doc, last[idx])) > 1 {
      assert multiset(kept + [last]) == multiset(kept) + multiset{last};
    }
  }

  /** One pruning step at position `idx`: `[p for p in filtered if counter[p[idx].name] > 1]`. */
  function Prune(doc: Doc, paths: seq<Path>, idx: nat): (r: seq<Path>)
    requires DeepEnough(doc, paths, idx)
    ensures forall p {:trigger p in r} :: p in r <==> p in paths && NameCount(doc, paths, idx, Name(doc, p[idx])) > 1
  {
    KeepRepeated(doc, paths, paths, idx)
  }

  /** A pruning step keeps the survivors in their order. */
  lemma PruneSelects(doc: Doc, paths: seq<Path>, idx: nat)
    requires DeepEnough(doc, paths, idx)
    ensures Subseq(Prune(doc, paths, idx), paths)
  {
    KeepRepeatedSelects(doc, paths, paths, idx);
  }

  /** A repeated tag is kept on every path that carries it. */
  lemma {:induction false} RepeatedKeptEverywhere(doc: Doc, all: seq<Path>, rest: seq<Path>, idx: nat, name: string)
    requires DeepEnough(doc, all, idx) && DeepEnough(doc, rest, idx)
    requires NameCount(doc, all, idx, name) > 1
    ensures NameCount(doc, KeepRepeated(doc, all, rest, idx), idx, name) == NameCount(doc, rest, idx, name)
  {
    if rest != [] {
      var init := rest[..|rest| - 1];
      var last := rest[|rest| - 1];
      RepeatedKeptEverywhere(doc, all, init, idx, name);
      var kept := KeepRepeated(doc, all, init, idx);
      if NameCount(doc, all, idx, Name(doc, last[idx])) > 1 {
        assert (kept + [last])[..|kept|] == kept;
      }
    }
  }

  /** A pruning step never leaves exactly one path: a survivor's tag occurs at least
      twice, and every path with that tag survives with it. */
  lemma NoSingleSurvivor(doc: Doc, paths: seq<Path>, idx: nat)
    requires DeepEnough(doc, paths, idx)
    ensures |Prune(doc, paths, idx)| != 1
  {
    var r := Prune(doc, paths, idx);
    if |r| == 1 {
      assert r[0] in r;
      var name := Name(doc, r[0][idx]);
      RepeatedKeptEverywhere(doc, paths, paths, idx, name);
      assert false;
    }
  }

  lemma ValidPathsDeep(doc: Doc, paths: seq<Path>, idx: nat)
    requires ValidPaths(doc, paths)
    requires forall p :: p in paths ==> idx < |p|
    ensures DeepEnough(doc, paths, idx)
  {
  }

  lemma {:induction false} SubseqValid(doc: Doc, xs: seq<Path>, ys: seq<Path>)
    requires ValidPaths(doc, ys) && Subseq(xs, ys)
    ensures ValidPaths(doc, xs)
  {
    SubseqMembers(xs, ys);
  }

  /** Every path has at least `n` positions. */
  predicate AtLeast(paths: seq<Path>, n: nat)
  {
    forall p :: p in paths ==> n <= |p|
  }

  /** The pruning loop over positions `n - 1`, `n - 2`, ..., 0: it stops when no position is
      left or at most one path is, and otherwise prunes at position `n - 1` and goes on one
      position closer to the root. */
  function PruneBelow(doc: Doc, paths: seq<Path>, n: nat): (r: seq<Path>)
    requires ValidPaths(doc, paths) && AtLeast(paths, n)
    ensures forall p {:trigger p in r} :: p in r ==> p in paths
    decreases n
  {
    if n == 0 || |paths| <= 1 then paths
    else
      ValidPathsDeep(doc, paths, n - 1);
      PruneBelow(doc, Prune(doc, paths, n - 1), n - 1)
  }

  /** Once no position is left or at most one path is, the loop has nothing more to do. */
  lemma PruneStops(doc: Doc, paths: seq<Path>, n: nat)
    requires ValidPaths(doc, paths) && AtLeast(paths, n)
    requires n == 0 || |paths| <= 1
    ensures PruneBelow(doc, paths, n) == paths
  {
  }

  /** One turn of the loop moves one step along `PruneBelow`. */
  lemma PruneStep(doc: Doc, paths: seq<Path>, n: nat)
    requires ValidPaths(doc, paths) && AtLeast(paths, n) && n > 0 && |paths| > 1
    ensures DeepEnough(doc, paths, n - 1)
    ensures ValidPaths(doc, Prune(doc, paths, n - 1)) && AtLeast(Prune(doc, paths, n - 1), n - 1)
    ensures PruneBelow(doc, paths, n) == PruneBelow(doc, Prune(doc, paths, n - 1), n - 1)
  {
    ValidPathsDeep(doc, paths, n - 1);
  }

  /** The survivors of the pruning loop are an order-preserving selection of its input. */
  lemma {:induction false} PruneBelowSelects(doc: Doc, paths: seq<Path>, n: nat)
    requires ValidPaths(doc, paths) && AtLeast(paths, n)
    ensures Subseq(PruneBelow(doc, paths, n), paths)
    ensures forall p :: p in PruneBelow(doc, paths, n) ==> p in paths
    decreases n
  {
    if n == 0 || |paths| <= 1 {
      PruneStops(doc, paths, n);
      SubseqRefl(paths);
    } else {
      PruneStep(doc, paths, n);
      var pruned := Prune(doc, paths, n - 1);
      PruneSelects(doc, paths, n - 1);
      PruneBelowSelects(doc, pruned, n - 1);
      SubseqTransitive(PruneBelow(doc, pruned, n - 1), pruned, paths);
    }
    SubseqMembers(PruneBelow(doc, paths, n), paths);
  }

  /** The loop ends with exactly one path only when it started with exactly one. */
  lemma {:induction false} PruneBelowNoSingle(doc: Doc, paths: seq<Path>, n: nat)
    requires ValidPaths(doc, paths) && AtLeast(paths, n)
    ensures |PruneBelow(doc, paths, n)| == 1 ==> |paths| == 1
    decreases n
  {
    if n == 0 || |paths| <= 1 {
      PruneStops(doc, paths, n);
    } else {
      PruneStep(doc, paths, n);
      NoSingleSurvivor(doc, paths, n - 1);
      PruneBelowNoSingle(doc, Prune(doc, paths, n - 1), n - 1);
    }
  }

  /** `p` and `q` carry the same tags at positions `0..n - 1`. */
  predicate TagsAgree(doc: Doc, p: Path, q: Path, n: nat)
    requires n <= |p| && n <= |q|
    requires forall k :: 0 <= k < |p| ==> p[k] < |doc.nodes|
    requires forall k :: 0 <= k < |q| ==> q[k] < |doc.nodes|
  {
    forall k :: 0 <= k < n ==> Name(doc, p[k]) == Name(doc, q[k])
  }

  /** Two different paths with the same tag at `idx` both survive a pruning step there. */
  lemma TwinsKept(doc: Doc, paths: seq<Path>, idx: nat, p: Path, q: Path)
    requires DeepEnough(doc, paths, idx)
    requires p in paths && q in paths && p != q
    requires Name(doc, p[idx]) == Name(doc, q[idx])
    ensures p in Prune(doc, paths, idx) && q in Prune(doc, paths, idx)
  {
    TwoCarriersRepeat(doc, paths, idx, p, q);
  }

  /** Two different paths with the same tags at every position the loop looks at both
      survive it: at each step each one's tag is carried by the other as well. */
  lemma {:induction false} TwinsSurvive(doc: Doc, paths: seq<Path>, n: nat, p: Path, q: Path)
    requires ValidPaths(doc, paths) && AtLeast(paths, n)
    requires p in paths && q in paths && p != q
    requires TagsAgree(doc, p, q, n)
    ensures p in PruneBelow(doc, paths, n) && q in PruneBelow(doc, paths, n)
    decreases n
  {
    if n == 0 || |paths| <= 1 {
      PruneStops(doc, paths, n);
    } else {
      PruneStep(doc, paths, n);
      TwinsKept(doc, paths, n - 1, p, q);
      var pruned := Prune(doc, paths, n - 1);
      var m: nat := n - 1;
      TwinsSurvive(doc, pruned, m, p, q);
      assert PruneBelow(doc, paths, n) == PruneBelow(doc, pruned, m);
    }
  }

  /** What filter_paths_by_common_ancestors returns: the paths of maximum length, pruned
      from the deepest position toward the root. No paths give none; the result is an
      order-preserving selection of the input, all of the maximum length; a single survivor
      means that only one path had the maximum length. */
  function CommonAncestorPaths(doc: Doc, imgPaths: seq<Path>): (r: seq<Path>)
    requires ValidPaths(doc, imgPaths)
    ensures imgPaths == [] ==> r == []
    ensures Subseq(r, imgPaths)
    ensures forall p :: p in r ==> p in imgPaths && |p| == MaxLen(imgPaths)
    ensures |r| == 1 ==> |OfLength(imgPaths, MaxLen(imgPaths))| == 1
  {
    if imgPaths == [] then EmptySubseq(imgPaths); []
    else
      var maxLen := MaxLen(imgPaths);
      var longest := OfLength(imgPaths, maxLen);
      SubseqValid(doc, longest, imgPaths);
      var r := PruneBelow(doc, longest, maxLen);
      PruneBelowSelects(doc, longest, maxLen);
      SubseqTransitive(r, longest, imgPaths);
      PruneBelowNoSingle(doc, longest, maxLen);
      r
  }

  /** Two different paths of maximum length with the same tag at every position both
      survive the filter. */
  lemma TwinsSurviveFilter(doc: Doc, imgPaths: seq<Path>, p: Path, q: Path)
    requires ValidPaths(doc, imgPaths)
    requires p in imgPaths && q in imgPaths && p != q
    requires |p| == MaxLen(imgPaths) && |q| == MaxLen(imgPaths)
    requires forall k :: 0 <= k < |p| ==> Name(doc, p[k]) == Name(doc, q[k])
    ensures p in CommonAncestorPaths(doc, imgPaths) && q in CommonAncestorPaths(doc, imgPaths)
  {
    var maxLen := MaxLen(imgPaths);
    var longest := OfLength(imgPaths, maxLen);
    SubseqValid(doc, longest, imgPaths);
    assert p in longest && q in longest;
    assert TagsAgree(doc, p, q, maxLen);
    TwinsSurvive(doc, longest, maxLen, p, q);
  }

  /** The loop starts from the longest paths, with every position still to look at. */
  lemma LongestStart(doc: Doc, imgPaths: seq<Path>)
    requires ValidPaths(doc, imgPaths) && imgPaths != []
    ensures ValidPaths(doc, OfLength(imgPaths, MaxLen(imgPaths)))
    ensures AtLeast(OfLength(imgPaths, MaxLen(imgPaths)), MaxLen(imgPaths))
    ensures PruneBelow(doc, OfLength(imgPaths, MaxLen(imgPaths)), MaxLen(imgPaths)) == CommonAncestorPaths(doc, imgPaths)
  {
    var longest := OfLength(imgPaths, MaxLen(imgPaths));
    SubseqValid(doc, longest, imgPaths);
    assert AtLeast(longest, MaxLen(imgPaths));
  }

  /** The while loop of filter_paths_by_common_ancestors: from position `n - 1` toward the
      root, prune at each position while more than one path is left. */
  method PruneLoop(doc: Doc, longest: seq<Path>, n: nat) returns (filtered: seq<Path>)
    requires ValidPaths(doc, longest) && AtLeast(longest, n)
    ensures filtered == PruneBelow(doc, longest, n)
  {
    filtered := longest;
    ghost var target := PruneBelow(doc, longest, n);
    // `remaining` is app.py's `index + 1`: the number of positions still to look at.
    var remaining: nat := n;
    while remaining > 0 && |filtered| > 1
      invariant ValidPaths(doc, filtered) && AtLeast(filtered, remaining)
      invariant PruneBelow(doc, filtered, remaining) == target
    {
      var index := remaining - 1;
      PruneStep(doc, filtered, remaining);
      assert PruneBelow(doc, Prune(doc, filtered, index), index) == target;
      filtered := Prune(doc, filtered, index);
      remaining := index;
    }
    PruneStops(doc, filtered, remaining);
  }

  /** Keeps the paths of maximum length, then runs the pruning loop over all of their
      positions. */
  method FilterPathsByCommonAncestors(doc: Doc, imgPaths: seq<Path>) returns (filtered: seq<Path>)
    requires ValidPaths(doc, imgPaths)
    ensures filtered == CommonAncestorPaths(doc, imgPaths)
  {
    if imgPaths == [] {
      return [];
    }
    var maxLen := MaxLen(imgPaths);
    var longest := OfLength(imgPaths, maxLen);
    LongestStart(doc, imgPaths);
    filtered := PruneLoop(doc, longest, maxLen);
  }

  // ---------------------------------------------------------------------------
  // Separation level (find_separation_level)
  // ---------------------------------------------------------------------------

  /** All paths have the same length. */
  predicate SameLength(paths: seq<Path>)
  {
    forall p, q :: p in paths && q in paths ==> |p| == |q|
  }

  /** All paths carry the same tag name at position `k` (the tag set has one element). */
  predicate SameTagAt(doc: Doc, paths: seq<Path>, k: nat)
    requires DeepEnough(doc, paths, k)
  {
    forall j :: 0 <= j < |paths| ==> Name(doc, paths[j][k]) == Name(doc, paths[0][k])
  }

  /** `v` is the level find_separation_level reports for non-empty `paths` of length `L`:
      either `v = -i + 1` where `i` is the first step back from the tail (1 for the last
      position, which is position `L - i` counted from the root) at which the tags differ,
      or `v = -L` when they differ nowhere. */
  predicate IsSeparationLevel(doc: Doc, paths: seq<Path>, v: int)
    requires ValidPaths(doc, paths) && SameLength(paths) && paths != []
  {
    var L := |paths[0]|;
    assert paths[0] in paths;
    && -L <= v <= 0
    && (v > -L ==> !SameTagAt(doc, paths, L - 1 + v)
                   && forall k :: L - 1 + v < k < L ==> SameTagAt(doc, paths, k))
    && (v == -L ==> forall k :: 0 <= k < L ==> SameTagAt(doc, paths, k))
  }

  /** The description above fixes the level: no two levels fit it. */
  lemma SeparationLevelUnique(doc: Doc, paths: seq<Path>, v: int, w: int)
    requires ValidPaths(doc, paths) && SameLength(paths) && paths != []
    requires IsSeparationLevel(doc, paths, v) && IsSeparationLevel(doc, paths, w)
    ensures v == w
  {
  }

  /** The level reached by scanning on from step `i` back from the tail, when the tags at
      the steps before `i` agree. */
  function LevelFrom(doc: Doc, paths: seq<Path>, i: nat): (v: int)
    requires ValidPaths(doc, paths) && SameLength(paths) && paths != []
    requires 1 <= i <= |paths[0]| + 1
    requires forall k :: |paths[0]| - i < k < |paths[0]| ==> SameTagAt(doc, paths, k)
    ensures IsSeparationLevel(doc, paths, v)
    decreases |paths[0]| + 1 - i
  {
    assert paths[0] in paths;
    var L: int := |paths[0]|;
    if i > L then -L
    else if !SameTagAt(doc, paths, L - i) then 1 - i
    else LevelFrom(doc, paths, i + 1)
  }

  /** What find_separation_level returns: no level for no paths, otherwise the one level
      `IsSeparationLevel` describes. */
  function SeparationLevel(doc: Doc, paths: seq<Path>): (sep: Option<int>)
    requires ValidPaths(doc, paths) && SameLength(paths)
    ensures sep.None? <==> paths == []
    ensures sep.Some? ==> IsSeparationLevel(doc, paths, sep.value)
  {
    if paths == [] then None else Some(LevelFrom(doc, paths, 1))
  }

  /** Scans from the tail toward the root for the first position where the tags differ.
      No paths: no level. */
  method FindSeparationLevel(doc: Doc, paths: seq<Path>) returns (sep: Option<int>)
    requires ValidPaths(doc, paths) && SameLength(paths)
    ensures sep.None? <==> paths == []
    ensures sep.Some? ==> paths != [] && IsSeparationLevel(doc, paths, sep.value)
    ensures sep == SeparationLevel(doc, paths)
  {
    if paths == [] {
      return None;
    }
    var pathLen := |paths[0]|;
    for i := 1 to pathLen + 1
      invariant forall k :: pathLen - i < k < pathLen ==> SameTagAt(doc, paths, k)
    {
      if !SameTagAt(doc, paths, pathLen - i) {
        SeparationLevelUnique(doc, paths, -i + 1, SeparationLevel(doc, paths).value);
        return Some(-i + 1);
      }
    }
    SeparationLevelUnique(doc, paths, -pathLen, SeparationLevel(doc, paths).value);
    return Some(-pathLen);
  }

  /** When the surviving paths carry the same tag at every position (repeated blocks built
      from the same tags, as a list of identical cards is), the level is minus the path
      length, so `path[sep]` is the first node of each path. */
  lemma UniformTagsSeparateAtRoot(doc: Doc, paths: seq<Path>, v: int)
    requires ValidPaths(doc, paths) && SameLength(paths) && paths != [] && |paths[0]| >= 1
    requires forall k :: 0 <= k < |paths[0]| ==> SameTagAt(doc, paths, k)
    requires IsSeparationLevel(doc, paths, v)
    ensures v == -|paths[0]|
    ensures forall p :: p in paths ==> PyIndex(p, v) == 0
  {
  }

  // ---------------------------------------------------------------------------
  // Article blocks (scrape, lines 76-83)
  // ---------------------------------------------------------------------------

  /** The position Python's `p[i]` reads, for `-len(p) <= i < len(p)`. */
  function PyIndex(p: Path, i: int): (j: nat)
    requires -|p| <= i < |p|
    ensures j < |p|
    ensures i < 0 ==> j as int - i == |p|
    ensures i >= 0 ==> j == i
  {
    if i < 0 then |p| + i else i
  }

  /** `sep` is a valid Python index into every path. */
  predicate IndexesAll(paths: seq<Path>, sep: int)
  {
    forall p :: p in paths ==> -|p| <= sep < |p|
  }

  /** The element `path[sep]` of each path, in path order. */
  function Ancestors(doc: Doc, paths: seq<Path>, sep: int): (r: seq<Elem>)
    requires ValidPaths(doc, paths) && IndexesAll(paths, sep)
    ensures |r| == |paths|
    ensures forall k :: 0 <= k < |paths| ==> r[k] == doc.nodes[paths[k][PyIndex(paths[k], sep)]].elem
  {
    seq(|paths|, k requires 0 <= k < |paths| =>
      assert paths[k] in paths; doc.nodes[paths[k][PyIndex(paths[k], sep)]].elem)
  }

  /** Picks `path[sep]` from every path and keeps each distinct block once, in order of
      first appearance. */
  method SelectArticleBlocks(doc: Doc, paths: seq<Path>, sep: int) returns (blocks: seq<Elem>)
    requires ValidPaths(doc, paths) && IndexesAll(paths, sep)
    ensures blocks == Dedup(Ancestors(doc, paths, sep))
    ensures NoDuplicates(blocks)
    ensures forall b :: b in blocks <==> b in Ancestors(doc, paths, sep)
    ensures forall a, b :: 0 <= a < b < |blocks| ==>
              IndexOf(Ancestors(doc, paths, sep), blocks[a]) < IndexOf(Ancestors(doc, paths, sep), blocks[b])
  {
    ghost var anc := Ancestors(doc, paths, sep);
    blocks := [];
    for i := 0 to |paths|
      invariant blocks == DedupPrefix(anc, i)
    {
      var path := paths[i];
      assert path in paths;
      var ancestor := doc.nodes[path[PyIndex(path, sep)]].elem;
      assert ancestor == anc[i];
      if ancestor !in blocks {
        blocks := blocks + [ancestor];
      }
    }
  }

  /** The article blocks of the page (app.py, lines 56-83): the image paths, filtered, the
      separation level, and the distinct ancestors at that level; none without a level.
      There are never more blocks than images, and no block twice. */
  function ArticleBlocks(doc: Doc): (blocks: seq<Elem>)
    requires WellFormed(doc)
    ensures Images(doc) == [] ==> blocks == []
    ensures |blocks| <= |Images(doc)|
    ensures NoDuplicates(blocks)
  {
    var imgPaths := ImgDomPaths(doc);
    var filtered := CommonAncestorPaths(doc, imgPaths);
    SubseqValid(doc, filtered, imgPaths);
    SubseqMembers(filtered, imgPaths);
    match SeparationLevel(doc, filtered)
    case None => []
    case Some(sep) =>
      assert filtered[0] in filtered;
      Dedup(Ancestors(doc, filtered, sep))
  }

  /** At the root level, paths that share their first node all pick that node's element,
      so the block list has that one element only. */
  lemma RootLevelOneAncestor(doc: Doc, paths: seq<Path>, sep: int, root: nat)
    requires ValidPaths(doc, paths) && SameLength(paths) && paths != [] && sep == -|paths[0]| < 0
    requires forall p :: p in paths ==> p[0] == root
    ensures IndexesAll(paths, sep)
    ensures root < |doc.nodes|
    ensures forall k :: 0 <= k < |paths| ==> Ancestors(doc, paths, sep)[k] == doc.nodes[root].elem
  {
    assert paths[0] in paths;
    forall k | 0 <= k < |paths|
      ensures Ancestors(doc, paths, sep)[k] == doc.nodes[root].elem
    {
      assert paths[k] in paths;
    }
  }
}
