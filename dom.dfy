/**
 * The markup tree the parser reads: text nodes and element ("tag") nodes
 * with attributes and ordered children, as the HTML parser delivers them.
 * Only the queries the post parser makes are modelled: attribute lookup,
 * `.contents()`, `.text()` and `.find(selector)` with the selector given as
 * a predicate on element nodes.
 */
module Dom {
  import opened Wrappers

  datatype Node =
    | TextNode(data: string)
    | Tag(name: string, attrs: map<string, string>, children: seq<Node>)

  /** `$(n).attr(key)`: `undefined` on a text node or when the attribute is absent. */
  function Attr(n: Node, key: string): Option<string> {
    if n.Tag? && key in n.attrs then Some(n.attrs[key]) else None
  }

  /** Number of nodes in the tree rooted at `n`; the measure parsing recurses on. */
  function Size(n: Node): nat
    decreases n, 1
  {
    match n
    case TextNode(_) => 1
    case Tag(_, _, cs) => 1 + ForestSize(cs)
  }

  function ForestSize(ns: seq<Node>): nat
    decreases ns, 0
  {
    if ns == [] then 0 else Size(ns[0]) + ForestSize(ns[1..])
  }

  /** `$(n).contents()` of an element: its children, in document order. */
  function Contents(n: Node): (cs: seq<Node>)
    ensures ForestSize(cs) < Size(n)
    ensures forall i :: 0 <= i < |cs| ==> Size(cs[i]) < Size(n)
  {
    var cs := if n.Tag? then n.children else [];
    ForestMemberSize(cs);
    cs
  }

  lemma {:induction false} ForestMemberSize(ns: seq<Node>)
    ensures forall i :: 0 <= i < |ns| ==> Size(ns[i]) <= ForestSize(ns)
  {
    if ns != [] {
      ForestMemberSize(ns[1..]);
      assert forall i :: 1 <= i < |ns| ==> ns[i] == ns[1..][i - 1];
    }
  }

  /**
   * `.contents()` of a selection of several elements: their children,
   * element after element; every one is smaller than `bound` when the
   * elements are no larger than it.
   */
  function ContentsOf(elems: seq<Node>, ghost bound: nat): (ns: seq<Node>)
    requires forall j :: 0 <= j < |elems| ==> Size(elems[j]) <= bound
    ensures forall i :: 0 <= i < |ns| ==> Size(ns[i]) < bound
  {
    if elems == [] then []
    else Contents(elems[0]) + ContentsOf(elems[1..], bound)
  }

  /** `$(n).text()`: the concatenated data of every text node in the tree. */
  function AllText(n: Node): string
    decreases n, 1
  {
    match n
    case TextNode(d) => d
    case Tag(_, _, cs) => ForestText(cs)
  }

  function ForestText(ns: seq<Node>): string
    decreases ns, 0
  {
    if ns == [] then "" else AllText(ns[0]) + ForestText(ns[1..])
  }

  /** Every node of the forest `ns` in document (pre-)order. */
  function Descendants(ns: seq<Node>): (ds: seq<Node>)
    ensures forall d :: d in ds ==> Size(d) <= ForestSize(ns)
    decreases ForestSize(ns)
  {
    if ns == [] then []
    else [ns[0]] + Descendants(Contents(ns[0])) + Descendants(ns[1..])
  }

  /**
   * `$(n).find(selector)`: the element nodes strictly below `n` that the
   * selector matches, in document order.
   */
  function Find(n: Node, selector: Node -> bool): (found: seq<Node>)
    ensures forall i :: 0 <= i < |found| ==>
      found[i].Tag? && selector(found[i]) && Size(found[i]) < Size(n)
  {
    Select(Descendants(Contents(n)), selector)
  }

  function Select(ds: seq<Node>, selector: Node -> bool): (r: seq<Node>)
    ensures forall d :: d in r ==> d in ds && d.Tag? && selector(d)
  {
    if ds == [] then []
    else (if ds[0].Tag? && selector(ds[0]) then [ds[0]] else []) + Select(ds[1..], selector)
  }
}
