/** The parsed page. The parser builds a tree of tags; the extractor walks it in two ways,
    so it is represented twice over:
    - as an arena of nodes in document order, each with the index of its parent, which is
      what the upward walk from an image follows;
    - as element values (tag name, attributes, contents), which is what the block
      comparison, `find` and `get_text` look at. */
module Dom {
  import opened Wrappers
  import opened Text

  datatype Content = Str(text: string) | Child(elem: Elem)

  /** A tag's value: two tags are equal when name, attributes and contents are equal. */
  datatype Elem = Elem(name: string, attrs: map<string, string>, contents: seq<Content>)

  /** One node of the arena: its element and the arena index of its parent, if any.
      The document object itself is a node too (named "[document]", without parent). */
  datatype Node = Node(elem: Elem, parent: Option<nat>)

  datatype Doc = Doc(nodes: seq<Node>)

  /** Nodes are stored in document order, so a parent comes before its children;
      in particular, following parents always ends. */
  predicate WellFormed(doc: Doc)
  {
    forall i :: 0 <= i < |doc.nodes| && doc.nodes[i].parent.Some? ==> doc.nodes[i].parent.value < i
  }

  function Name(doc: Doc, i: nat): string
    requires i < |doc.nodes|
  {
    doc.nodes[i].elem.name
  }

  /** The tags strictly inside `e.contents[k..]`, in document (preorder) order. */
  function DescendantsFrom(e: Elem, k: nat): seq<Elem>
    decreases e, |e.contents| - k
  {
    if k >= |e.contents| then []
    else match e.contents[k]
      case Str(_) => DescendantsFrom(e, k + 1)
      case Child(c) =>
        assert e.contents[k] in e.contents;
        [c] + DescendantsFrom(c, 0) + DescendantsFrom(e, k + 1)
  }

  function Descendants(e: Elem): seq<Elem>
  {
    DescendantsFrom(e, 0)
  }

  /** A tag filter as `find` takes it: a tag name and, optionally, an attribute that must be present. */
  predicate Matches(e: Elem, name: string, attr: Option<string>)
  {
    e.name == name && (attr.Some? ==> attr.value in e.attrs)
  }

  function FirstMatch(es: seq<Elem>, name: string, attr: Option<string>): (r: Option<Elem>)
    ensures r.None? <==> forall k :: 0 <= k < |es| ==> !Matches(es[k], name, attr)
    ensures r.Some? ==> exists k :: 0 <= k < |es| && es[k] == r.value
                               && Matches(es[k], name, attr)
                               && forall j :: 0 <= j < k ==> !Matches(es[j], name, attr)
  {
    if es == [] then None
    else if Matches(es[0], name, attr) then Some(es[0])
    else
      var r := FirstMatch(es[1..], name, attr);
      assert forall k :: 1 <= k < |es| ==> es[k] == es[1..][k - 1];
      r
  }

  /** `e.find(name, attr=True)`: the first matching descendant in document order. It finds
      nothing exactly when no descendant matches; what it finds is a matching descendant,
      and no descendant before it in document order matches. */
  function Find(e: Elem, name: string, attr: Option<string>): (r: Option<Elem>)
    ensures r.None? <==> forall d :: d in Descendants(e) ==> !Matches(d, name, attr)
    ensures r.Some? ==> r.value in Descendants(e) && Matches(r.value, name, attr)
    ensures r.Some? ==> exists k :: 0 <= k < |Descendants(e)| && Descendants(e)[k] == r.value
                               && forall j :: 0 <= j < k ==> !Matches(Descendants(e)[j], name, attr)
  {
    var ds := Descendants(e);
    var r := FirstMatch(ds, name, attr);
    assert forall d :: d in ds ==> exists k :: 0 <= k < |ds| && ds[k] == d;
    r
  }

  /** The text below `e.contents[k..]`, computed in one walk: each text piece stripped
      and appended in document order. */
  function TextFrom(e: Elem, k: nat): string
    decreases e, |e.contents| - k
  {
    if k >= |e.contents| then ""
    else match e.contents[k]
      case Str(s) => Strip(s) + TextFrom(e, k + 1)
      case Child(c) =>
        assert e.contents[k] in e.contents;
        TextFrom(c, 0) + TextFrom(e, k + 1)
  }

  /** The text pieces below `e.contents[k..]`, in document order. */
  function StringsFrom(e: Elem, k: nat): seq<string>
    decreases e, |e.contents| - k
  {
    if k >= |e.contents| then []
    else match e.contents[k]
      case Str(s) => [s] + StringsFrom(e, k + 1)
      case Child(c) =>
        assert e.contents[k] in e.contents;
        StringsFrom(c, 0) + StringsFrom(e, k + 1)
  }

  /** Every text piece below `e`, in document order (BeautifulSoup's strings of a tag). */
  function Strings(e: Elem): seq<string>
  {
    StringsFrom(e, 0)
  }

  /** The pieces, each stripped, joined with the empty separator. */
  function JoinStripped(ss: seq<string>): string
  {
    if ss == [] then "" else Strip(ss[0]) + JoinStripped(ss[1..])
  }

  lemma {:induction false} JoinStrippedAppend(a: seq<string>, b: seq<string>)
    ensures JoinStripped(a + b) == JoinStripped(a) + JoinStripped(b)
    decreases |a|
  {
    if a == [] {
      assert a + b == b;
    } else {
      assert (a + b)[1..] == a[1..] + b;
      JoinStrippedAppend(a[1..], b);
    }
  }

  lemma {:induction false} TextFromStrings(e: Elem, k: nat)
    ensures TextFrom(e, k) == JoinStripped(StringsFrom(e, k))
    decreases e, |e.contents| - k
  {
    if k < |e.contents| {
      match e.contents[k]
      case Str(s) =>
        TextFromStrings(e, k + 1);
        assert ([s] + StringsFrom(e, k + 1))[1..] == StringsFrom(e, k + 1);
      case Child(c) =>
        assert e.contents[k] in e.contents;
        TextFromStrings(c, 0);
        TextFromStrings(e, k + 1);
        JoinStrippedAppend(StringsFrom(c, 0), StringsFrom(e, k + 1));
    }
  }

  /** `e.get_text(strip=True)`: the text pieces below `e`, each stripped, joined with the
      empty separator. */
  function GetText(e: Elem): (t: string)
    ensures t == JoinStripped(Strings(e))
  {
    TextFromStrings(e, 0);
    TextFrom(e, 0)
  }
}
