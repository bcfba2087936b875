/**
 * Node classification and parsing: one markup node becomes one post
 * element (post-parse.ts, `parseCheerioNode` and its helpers).
 */
module NodeParser {
  import opened Wrappers
  import opened Strings
  import opened Dom
  import opened Elements

  /**
   * The two selectors of a spoiler block, `POST.SPOILER_NAME` (its label)
   * and `POST.SPOILER_CONTENT` (its body), as predicates on element nodes.
   */
  datatype Selectors = Selectors(spoilerName: Node -> bool, spoilerContent: Node -> bool)

  /** `isFormattingNode`: a `<b>` or `<i>` element. */
  predicate IsFormattingNode(n: Node) {
    n.Tag? && n.name in {"b", "i"}
  }

  /** `isTextNode`. */
  predicate IsTextNode(n: Node) {
    n.TextNode?
  }

  /** `isSpoilerNode`: the `class` attribute is exactly `bbCodeSpoiler`. */
  predicate IsSpoilerNode(n: Node) {
    Attr(n, "class") == Some("bbCodeSpoiler")
  }

  /** `isLinkNode`: an `<a>` or `<img>` element. */
  predicate IsLinkNode(n: Node) {
    n.Tag? && (n.name == "a" || n.name == "img")
  }

  /** `isNoScriptNode`. */
  predicate IsNoScriptNode(n: Node) {
    n.Tag? && n.name == "noscript"
  }

  /**
   * `node.contents().length` under the HTML library the source was written
   * for: a text node has no children array and its `contents()` holds one
   * `undefined` entry.
   */
  function ContentsLength(n: Node): nat {
    if n.TextNode? then 1 else |n.children|
  }

  /** The concatenated data of the direct text-node children of `n`. */
  function DirectText(n: Node): string
    decreases n, 1
  {
    if n.TextNode? then "" else DirectTextOf(n.children)
  }

  function DirectTextOf(ns: seq<Node>): string
    decreases ns, 0
  {
    if ns == [] then ""
    else (if ns[0].TextNode? then ns[0].data else "") + DirectTextOf(ns[1..])
  }

  /**
   * `getCheerioNonChildrenText`: the whole text of a node with a single
   * entry in `contents()` (a text node among them), otherwise only its
   * direct text children; cleaned of repeated white space and trimmed.
   */
  function NonChildrenText(n: Node): (r: string)
    ensures r == [] || (!IsSpace(r[0]) && !IsSpace(r[|r| - 1]))
    ensures NoDoubleSpace(r)
    ensures n.TextNode? ==> Letters(r) == Letters(n.data)
    ensures n.TextNode? ==> Squeeze(r) == Trim(Squeeze(n.data))
    ensures n.Tag? && |n.children| == 1 ==> Squeeze(r) == Trim(Squeeze(AllText(n)))
    ensures n.Tag? && |n.children| != 1 ==> Squeeze(r) == Trim(Squeeze(DirectText(n)))
  {
    var raw := if ContentsLength(n) == 1 then AllText(n) else DirectText(n);
    Clean(raw)
  }

  /** `parseCheerioTextNode`. */
  function ParseTextNode(n: Node): PostElement {
    PostElement(Text, "", NonChildrenText(n), None, [])
  }

  /** `parseCheerioLinkNode`: images keep `alt` and `data-src`, anchors their text and `href`. */
  function ParseLinkNode(n: Node): PostElement {
    if n.Tag? && n.name == "img" then
      var alt := Attr(n, "alt");
      PostElement(Image, "", if alt.Some? then alt.value else "", Attr(n, "data-src"), [])
    else if n.Tag? && n.name == "a" then
      PostElement(Link, "", Clean(AllText(n)), Attr(n, "href"), [])
    else
      PostElement(Link, "", "", Some(""), [])
  }

  /** The nodes whose parses form a spoiler's content: the children of every body the selector finds. */
  function SpoilerBody(sel: Selectors, n: Node): (ns: seq<Node>)
    ensures forall i :: 0 <= i < |ns| ==> Size(ns[i]) < Size(n)
  {
    ContentsOf(Find(n, sel.spoilerContent), Size(n))
  }

  /** The label of a spoiler: the trimmed text of the first label the selector finds, or "". */
  function SpoilerName(sel: Selectors, n: Node): string {
    var labels := Find(n, sel.spoilerName);
    Trim(if |labels| == 0 then "" else AllText(labels[0]))
  }

  /** `parseCheerioSpoilerNode`. */
  function ParseSpoiler(sel: Selectors, n: Node): (r: PostElement)
    ensures r.kind == Spoiler && r.name == SpoilerName(sel, n) && r.text == ""
    ensures |r.content| == |SpoilerBody(sel, n)|
    ensures WellFormed(r)
    decreases Size(n), 1, 0
  {
    PostElement(Spoiler, SpoilerName(sel, n), "", None, ParseForest(sel, SpoilerBody(sel, n), Size(n)))
  }

  /**
   * `nodes.map((el) => parseCheerioNode($, el))` over nodes smaller than
   * `bound`: one element per node, in order.
   */
  function ParseForest(sel: Selectors, ns: seq<Node>, ghost bound: nat): (r: seq<PostElement>)
    requires forall i :: 0 <= i < |ns| ==> Size(ns[i]) < bound
    ensures |r| == |ns|
    ensures AllWellFormed(r)
    decreases bound, 0, |ns|
  {
    if ns == [] then []
    else
      var init := ParseForest(sel, ns[..|ns| - 1], bound);
      var last := ParseNode(sel, ns[|ns| - 1]);
      AllWellFormedAppend(init, [last]);
      init + [last]
  }

  /** Element `i` of a parsed forest is the parse of node `i`. */
  lemma {:induction false} ParseForestAt(sel: Selectors, ns: seq<Node>, bound: nat)
    requires forall i :: 0 <= i < |ns| ==> Size(ns[i]) < bound
    ensures forall i :: 0 <= i < |ns| ==> ParseForest(sel, ns, bound)[i] == ParseNode(sel, ns[i])
    decreases |ns|
  {
    if ns != [] {
      var init := ns[..|ns| - 1];
      ParseForestAt(sel, init, bound);
      forall i | 0 <= i < |ns| - 1
        ensures ParseForest(sel, ns, bound)[i] == ParseNode(sel, ns[i])
      {
        assert ns[i] == init[i];
      }
    }
  }

  /** Child `i` of a spoiler element is the parse of node `i` of its body. */
  lemma ParseSpoilerAt(sel: Selectors, n: Node)
    ensures var body := SpoilerBody(sel, n);
      forall i :: 0 <= i < |body| ==> ParseSpoiler(sel, n).content[i] == ParseNode(sel, body[i])
  {
    ParseForestAt(sel, SpoilerBody(sel, n), Size(n));
  }

  /** Parsing one more node of a forest appends its element. */
  lemma ParseForestSnoc(sel: Selectors, ns: seq<Node>, i: nat, bound: nat)
    requires i < |ns|
    requires forall j :: 0 <= j < |ns| ==> Size(ns[j]) < bound
    ensures ParseForest(sel, ns[..i + 1], bound) == ParseForest(sel, ns[..i], bound) + [ParseNode(sel, ns[i])]
  {
    assert ns[..i + 1][..i] == ns[..i];
  }

  /**
   * `parseCheerioNode`: one node, one element. Everything it builds obeys
   * `WellFormed`, and the children a `<b>`/`<i>` contributes are never empty.
   */
  function ParseNode(sel: Selectors, n: Node): (r: PostElement)
    ensures WellFormed(r)
    ensures IsFormattingNode(n) && !IsSpoilerNode(n) ==>
      |r.content| <= |Contents(n)| && forall i :: 0 <= i < |r.content| ==> !IsEmpty(r.content[i])
    decreases Size(n), 2, 0
  {
    if IsNoScriptNode(n) then NewGeneric()
    else
      var post :=
        if IsTextNode(n) && !IsFormattingNode(n) then ParseTextNode(n)
        else if IsSpoilerNode(n) then ParseSpoiler(sel, n)
        else if IsLinkNode(n) then ParseLinkNode(n)
        else NewGeneric();
      if IsFormattingNode(n) then
        var children := ParseForest(sel, Contents(n), Size(n));
        KeepNonEmptyWellFormed(children);
        AllWellFormedAppend(post.content, KeepNonEmpty(children));
        post.(content := post.content + KeepNonEmpty(children))
      else post
  }

  /**
   * The classification rules of `parseCheerioNode`: `noscript` and every
   * element that is not `<b>`/`<i>`, `<a>`/`<img>` or a spoiler block give
   * an empty Generic element; a text node gives a Text element; `<img>` an
   * Image with its `alt` text and `data-src` target, `<a>` a Link with its
   * cleaned text and `href`; only `<b>`/`<i>` (and spoilers) get children,
   * and a `<b>`/`<i>` that is also a spoiler block is a Spoiler holding its
   * body followed by its non-empty parsed children.
   */
  lemma ParseRules(sel: Selectors, n: Node)
    ensures IsNoScriptNode(n) ==> ParseNode(sel, n) == NewGeneric()
    ensures n.TextNode? ==> ParseNode(sel, n) == PostElement(Text, "", NonChildrenText(n), None, [])
    ensures n.Tag? && !IsSpoilerNode(n) && n.name !in {"noscript", "b", "i", "a", "img"} ==>
      ParseNode(sel, n) == NewGeneric()
    ensures n.Tag? && !IsSpoilerNode(n) && n.name == "img" ==>
      ParseNode(sel, n) == PostElement(Image, "", if "alt" in n.attrs then n.attrs["alt"] else "",
                                       Attr(n, "data-src"), [])
    ensures n.Tag? && !IsSpoilerNode(n) && n.name == "a" ==>
      ParseNode(sel, n) == PostElement(Link, "", Clean(AllText(n)), Attr(n, "href"), [])
    ensures n.Tag? && IsSpoilerNode(n) && n.name != "noscript" ==>
      ParseNode(sel, n).kind == Spoiler && ParseNode(sel, n).name == SpoilerName(sel, n)
    ensures IsSpoilerNode(n) && !IsNoScriptNode(n) && !IsFormattingNode(n) ==>
      ParseNode(sel, n) == ParseSpoiler(sel, n)
    ensures !IsFormattingNode(n) && !IsSpoilerNode(n) ==> ParseNode(sel, n).content == []
    ensures IsFormattingNode(n) && !IsSpoilerNode(n) ==>
      var r := ParseNode(sel, n);
      r.kind == Generic && r.name == "" && r.text == "" && r.href == None
      && r.content == KeepNonEmpty(ParseForest(sel, Contents(n), Size(n)))
    ensures IsFormattingNode(n) && IsSpoilerNode(n) ==>
      var s := ParseSpoiler(sel, n);
      ParseNode(sel, n) == s.(content := s.content + KeepNonEmpty(ParseForest(sel, Contents(n), Size(n))))
  {
  }

  /** `parseCheerioNode`, step by step as the source builds the element. */
  method ParseCheerioNode(sel: Selectors, n: Node) returns (post: PostElement)
    ensures post == ParseNode(sel, n)
    decreases Size(n), 2, 0
  {
    post := NewGeneric();
    if !IsNoScriptNode(n) {
      if IsTextNode(n) && !IsFormattingNode(n) {
        post := ParseTextNode(n);
      } else if IsSpoilerNode(n) {
        post := ParseCheerioSpoilerNode(sel, n);
      } else if IsLinkNode(n) {
        post := ParseLinkNode(n);
      }
      if IsFormattingNode(n) {
        var childPosts := ParseCheerioChildren(sel, n);
        post := post.(content := post.content + childPosts);
      }
    }
  }

  /**
   * The children of a `<b>`/`<i>` node, parsed one after the other, with the
   * empty results filtered out.
   */
  method ParseCheerioChildren(sel: Selectors, n: Node) returns (childPosts: seq<PostElement>)
    ensures childPosts == KeepNonEmpty(ParseForest(sel, Contents(n), Size(n)))
    decreases Size(n), 0, 0
  {
    var children := Contents(n);
    childPosts := [];
    for i := 0 to |children|
      invariant childPosts == KeepNonEmpty(ParseForest(sel, children[..i], Size(n)))
    {
      var child := ParseCheerioNode(sel, children[i]);
      ParseForestSnoc(sel, children, i, Size(n));
      KeepNonEmptyAppend(ParseForest(sel, children[..i], Size(n)), [child]);
      KeepNonEmptySingle(child);
      if !IsEmpty(child) {
        childPosts := childPosts + [child];
      }
    }
    assert children[..|children|] == children;
  }

  /** `parseCheerioSpoilerNode`, parsing the body's nodes one after the other. */
  method ParseCheerioSpoilerNode(sel: Selectors, n: Node) returns (spoiler: PostElement)
    ensures spoiler == ParseSpoiler(sel, n)
    decreases Size(n), 1, 0
  {
    var body := SpoilerBody(sel, n);
    var parsed: seq<PostElement> := [];
    for i := 0 to |body|
      invariant parsed == ParseForest(sel, body[..i], Size(n))
    {
      var child := ParseCheerioNode(sel, body[i]);
      ParseForestSnoc(sel, body, i, Size(n));
      parsed := parsed + [child];
    }
    assert body[..|body|] == body;
    spoiler := PostElement(Spoiler, SpoilerName(sel, n), "", None, parsed);
  }
}
