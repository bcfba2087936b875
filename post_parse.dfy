/**
 * `parseF95ThreadPost` (post-parse.ts): parse the top-level nodes of a post
 * body, wrap them in a Generic "supernode", reduce and prune it, and build
 * the title/value records from what is left.
 */
module PostParse {
  import opened Wrappers
  import opened Dom
  import opened Elements
  import opened NodeParser
  import opened PostTree
  import opened Grouping

  /** The supernode of a post: a Generic element holding the parsed top-level nodes. */
  function Supernode(sel: Selectors, post: Node): (r: PostElement)
    ensures r.kind == Generic && r.name == "" && r.text == "" && r.href == None
    ensures |r.content| == |Contents(post)|
    ensures WellFormed(r)
  {
    NewGeneric().(content := ParseForest(sel, Contents(post), Size(post)))
  }

  /** Child `i` of the supernode is the parse of top-level node `i`. */
  lemma SupernodeAt(sel: Selectors, post: Node)
    ensures forall i :: 0 <= i < |Contents(post)| ==> Supernode(sel, post).content[i] == ParseNode(sel, Contents(post)[i])
  {
    ParseForestAt(sel, Contents(post), Size(post));
  }

  /** The list handed to `associateNameToElements`: the supernode reduced, pruned, opened. */
  function GroupingInput(sel: Selectors, post: Node): seq<PostElement> {
    Prune(Reduce(Supernode(sel, post))).content
  }

  /** `parseF95ThreadPost` as a value. */
  function ThreadPost(sel: Selectors, post: Node): seq<PostElement> {
    AssociateNames(GroupingInput(sel, post))
  }

  /**
   * The grouping pass only sees trees in which Text, Link and Image
   * elements have no children, no child is empty at any depth and no
   * top-level element is empty; there are never more records than
   * top-level elements, and there is none exactly when nothing is left.
   */
  lemma GroupingInputShape(sel: Selectors, post: Node)
    ensures var input := GroupingInput(sel, post);
      AllWellFormed(input)
      && AllKeptPruned(input)
      && (forall i :: 0 <= i < |input| ==> !IsEmpty(input[i]))
      && |ThreadPost(sel, post)| <= |input|
      && (ThreadPost(sel, post) == [] <==> input == [])
  {
    var reduced := Reduce(Supernode(sel, post));
    ReduceWellFormed(Supernode(sel, post));
    PruneWellFormed(reduced);
    PruneIsPruned(reduced);
  }

  /** A post without nodes yields no records. */
  lemma EmptyPost(sel: Selectors, post: Node)
    requires Contents(post) == []
    ensures ThreadPost(sel, post) == []
  {
    assert Supernode(sel, post) == NewGeneric();
    assert ReduceAll([]) == [];
    assert Reduce(NewGeneric()) == NewGeneric();
  }

  /**
   * A post with exactly one top-level node: the supernode is unlabeled and
   * has one child, so reduction replaces it by that child, and the records
   * are built from the children of that one node.
   */
  lemma SingleNodePost(sel: Selectors, post: Node)
    requires |Contents(post)| == 1
    ensures ThreadPost(sel, post) == AssociateNames(Prune(Reduce(ParseNode(sel, Contents(post)[0]))).content)
  {
    var cs := Contents(post);
    ParseForestSnoc(sel, cs, 0, Size(post));
    assert cs[..1] == cs && cs[..0] == [];
    assert Collapsible(Supernode(sel, post));
  }

  /**
   * In particular a post that is a single text node yields no records: the
   * text element replaces the supernode, and it has no children to group.
   */
  lemma SingleTextPost(sel: Selectors, post: Node)
    requires |Contents(post)| == 1 && Contents(post)[0].TextNode?
    ensures ThreadPost(sel, post) == []
  {
    var n := Contents(post)[0];
    SingleNodePost(sel, post);
    ParseRules(sel, n);
    var e := ParseNode(sel, n);
    assert e.content == [];
    assert Reduce(e) == e.(content := ReduceAll([]));
  }

  /** `parseF95ThreadPost`, step by step. */
  method ParseF95ThreadPost(sel: Selectors, post: Node) returns (r: seq<PostElement>)
    ensures r == ThreadPost(sel, post)
  {
    var nodes := Contents(post);
    var elements := [];
    for i := 0 to |nodes|
      invariant elements == ParseForest(sel, nodes[..i], Size(post))
    {
      var e := ParseCheerioNode(sel, nodes[i]);
      ParseForestSnoc(sel, nodes, i, Size(post));
      elements := elements + [e];
    }
    assert nodes[..|nodes|] == nodes;

    var supernode := NewGeneric();
    supernode := supernode.(content := elements);
    supernode := Reduce(supernode);
    supernode := Prune(supernode);
    r := AssociateNameToElements(supernode.content);
  }
}
