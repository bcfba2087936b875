/**
 * The two rewrites of a parsed post tree (post-parse.ts): `reducePostElement`
 * collapses unlabeled wrappers with a single child, and
 * `removeEmptyContentFromElement` drops empty children at every depth. Both
 * work on shallow copies and leave their input untouched, so they are
 * functions on values here.
 */
module PostTree {
  import opened Elements

  /** Height of an element tree; an element without children has depth 1. */
  function Depth(e: PostElement): nat
    decreases e, 1
  {
    1 + MaxDepth(e.content)
  }

  function MaxDepth(es: seq<PostElement>): nat
    decreases es, 0
  {
    if es == [] then 0
    else
      var rest := MaxDepth(es[1..]);
      if Depth(es[0]) < rest then rest else Depth(es[0])
  }

  lemma MaxDepthCons(e: PostElement, es: seq<PostElement>)
    ensures MaxDepth([e] + es) == if Depth(e) < MaxDepth(es) then MaxDepth(es) else Depth(e)
  {
    assert ([e] + es)[0] == e;
    assert ([e] + es)[1..] == es;
  }

  /** The elements `reducePostElement` replaces by their only child. */
  predicate Collapsible(e: PostElement) {
    IsUnknown(e) && |e.content| == 1
  }

  /**
   * `reducePostElement`: an unknown element with exactly one child becomes
   * the reduction of that child; any other element keeps its fields and
   * gets its children reduced one by one. The result is never itself
   * collapsible and is no deeper than the input.
   */
  function Reduce(e: PostElement): (r: PostElement)
    ensures !Collapsible(r)
    ensures Depth(r) <= Depth(e)
    decreases e, 1
  {
    if Collapsible(e) then
      assert e.content == [e.content[0]] + [];
      MaxDepthCons(e.content[0], []);
      Reduce(e.content[0])
    else
      e.(content := ReduceAll(e.content))
  }

  /** `content.map((e) => reducePostElement(e))`. */
  function ReduceAll(es: seq<PostElement>): (rs: seq<PostElement>)
    ensures |rs| == |es|
    ensures MaxDepth(rs) <= MaxDepth(es)
    decreases es, 0
  {
    if es == [] then []
    else
      var rs := [Reduce(es[0])] + ReduceAll(es[1..]);
      assert es == [es[0]] + es[1..];
      MaxDepthCons(Reduce(es[0]), ReduceAll(es[1..]));
      MaxDepthCons(es[0], es[1..]);
      rs
  }

  lemma {:induction false} ReduceAllAt(es: seq<PostElement>, i: nat)
    requires i < |es|
    ensures ReduceAll(es)[i] == Reduce(es[i])
    decreases es
  {
    if i > 0 {
      ReduceAllAt(es[1..], i - 1);
    }
  }

  /**
   * An element that is not collapsible keeps its kind, name, text and link
   * target and the number of its children, each child being reduced in
   * place.
   */
  lemma ReduceKeepsShape(e: PostElement)
    requires !Collapsible(e)
    ensures var r := Reduce(e);
      r.kind == e.kind && r.name == e.name && r.text == e.text && r.href == e.href
      && |r.content| == |e.content|
      && forall i :: 0 <= i < |e.content| ==> r.content[i] == Reduce(e.content[i])
  {
    forall i | 0 <= i < |e.content|
      ensures ReduceAll(e.content)[i] == Reduce(e.content[i])
    {
      ReduceAllAt(e.content, i);
    }
  }

  /**
   * The partner of `ReduceKeepsShape`: a collapsible element is replaced by
   * the reduction of its only child, which is strictly shallower.
   */
  lemma ReduceCollapses(e: PostElement)
    requires Collapsible(e)
    ensures Reduce(e) == Reduce(e.content[0])
    ensures Depth(Reduce(e)) < Depth(e)
  {
    assert e.content == [e.content[0]] + [];
    MaxDepthCons(e.content[0], []);
  }

  /** No element of the tree, at any depth, is collapsible. */
  predicate Reduced(e: PostElement)
    decreases e, 1
  {
    !Collapsible(e) && AllReduced(e.content)
  }

  predicate AllReduced(es: seq<PostElement>)
    decreases es, 0
  {
    es == [] || (Reduced(es[0]) && AllReduced(es[1..]))
  }

  lemma {:induction false} ReduceIsReduced(e: PostElement)
    ensures Reduced(Reduce(e))
    decreases e, 1
  {
    if Collapsible(e) {
      ReduceIsReduced(e.content[0]);
    } else {
      ReduceAllIsReduced(e.content);
    }
  }

  lemma {:induction false} ReduceAllIsReduced(es: seq<PostElement>)
    ensures AllReduced(ReduceAll(es))
    decreases es, 0
  {
    if es != [] {
      ReduceIsReduced(es[0]);
      ReduceAllIsReduced(es[1..]);
      assert ReduceAll(es)[1..] == ReduceAll(es[1..]);
    }
  }

  /** A tree without collapsible elements is left as it is. */
  lemma {:induction false} ReducedIsFixpoint(e: PostElement)
    requires Reduced(e)
    ensures Reduce(e) == e
    decreases e, 1
  {
    ReduceAllFixpoint(e.content);
  }

  lemma {:induction false} ReduceAllFixpoint(es: seq<PostElement>)
    requires AllReduced(es)
    ensures ReduceAll(es) == es
    decreases es, 0
  {
    if es != [] {
      ReducedIsFixpoint(es[0]);
      ReduceAllFixpoint(es[1..]);
      assert es == [es[0]] + es[1..];
    }
  }

  /** Reducing twice is reducing once. */
  lemma ReduceIdempotent(e: PostElement)
    ensures Reduce(Reduce(e)) == Reduce(e)
  {
    ReduceIsReduced(e);
    ReducedIsFixpoint(Reduce(e));
  }

  /** Reducing keeps Text, Link and Image elements childless. */
  lemma {:induction false} ReduceWellFormed(e: PostElement)
    requires WellFormed(e)
    ensures WellFormed(Reduce(e))
    decreases e, 1
  {
    if Collapsible(e) {
      ReduceWellFormed(e.content[0]);
    } else {
      ReduceAllWellFormed(e.content);
    }
  }

  lemma {:induction false} ReduceAllWellFormed(es: seq<PostElement>)
    requires AllWellFormed(es)
    ensures AllWellFormed(ReduceAll(es))
    decreases es, 0
  {
    if es != [] {
      ReduceWellFormed(es[0]);
      ReduceAllWellFormed(es[1..]);
      assert ReduceAll(es)[1..] == ReduceAll(es[1..]);
    }
  }

  /**
   * `removeEmptyContentFromElement` with its default `recursive = true`:
   * the children are pruned first, then the ones left empty are dropped.
   * The root keeps its kind, name, text and link target, and none of its
   * remaining children is empty.
   */
  function Prune(e: PostElement): (r: PostElement)
    ensures r.kind == e.kind && r.name == e.name && r.text == e.text && r.href == e.href
    ensures forall i :: 0 <= i < |r.content| ==> !IsEmpty(r.content[i])
    ensures |r.content| <= |e.content|
    decreases e, 1
  {
    e.(content := KeepNonEmpty(PruneAll(e.content)))
  }

  /** `content.map((e) => removeEmptyContentFromElement(e))`. */
  function PruneAll(es: seq<PostElement>): (rs: seq<PostElement>)
    ensures |rs| == |es|
    decreases es, 0
  {
    if es == [] then [] else [Prune(es[0])] + PruneAll(es[1..])
  }

  lemma {:induction false} PruneAllAt(es: seq<PostElement>, i: nat)
    requires i < |es|
    ensures PruneAll(es)[i] == Prune(es[i])
    decreases es
  {
    if i > 0 {
      PruneAllAt(es[1..], i - 1);
    }
  }

  /**
   * The children that survive pruning are pruned originals, in their
   * original order, and every child whose pruned form is not empty survives.
   */
  lemma PruneKeepsOrder(e: PostElement)
    ensures IsSubsequence(Prune(e).content, PruneAll(e.content))
    ensures forall i :: 0 <= i < |e.content| && !IsEmpty(Prune(e.content[i])) ==>
      Prune(e.content[i]) in Prune(e).content
  {
    forall i | 0 <= i < |e.content|
      ensures PruneAll(e.content)[i] == Prune(e.content[i])
    {
      PruneAllAt(e.content, i);
    }
  }

  /** No element of the tree, at any depth, has an empty child. */
  predicate Pruned(e: PostElement)
    decreases e, 1
  {
    AllKeptPruned(e.content)
  }

  /** Every element of `es` is non-empty and pruned. */
  predicate AllKeptPruned(es: seq<PostElement>)
    decreases es, 0
  {
    es == [] || (!IsEmpty(es[0]) && Pruned(es[0]) && AllKeptPruned(es[1..]))
  }

  /** Every element of `es` is pruned (empty ones included). */
  predicate AllPruned(es: seq<PostElement>)
    decreases es, 0
  {
    es == [] || (Pruned(es[0]) && AllPruned(es[1..]))
  }

  lemma {:induction false} PruneIsPruned(e: PostElement)
    ensures Pruned(Prune(e))
    decreases e, 1
  {
    PruneAllIsPruned(e.content);
    KeepNonEmptyPruned(PruneAll(e.content));
  }

  lemma {:induction false} PruneAllIsPruned(es: seq<PostElement>)
    ensures AllPruned(PruneAll(es))
    decreases es, 0
  {
    if es != [] {
      PruneIsPruned(es[0]);
      PruneAllIsPruned(es[1..]);
      assert PruneAll(es)[1..] == PruneAll(es[1..]);
    }
  }

  lemma {:induction false} KeepNonEmptyPruned(s: seq<PostElement>)
    requires AllPruned(s)
    ensures AllKeptPruned(KeepNonEmpty(s))
  {
    if s != [] {
      KeepNonEmptyPruned(s[1..]);
      if !IsEmpty(s[0]) {
        assert KeepNonEmpty(s) == [s[0]] + KeepNonEmpty(s[1..]);
        assert KeepNonEmpty(s)[1..] == KeepNonEmpty(s[1..]);
      }
    }
  }

  /** A tree without empty children is left as it is. */
  lemma {:induction false} PrunedIsFixpoint(e: PostElement)
    requires Pruned(e)
    ensures Prune(e) == e
    decreases e, 1
  {
    PruneAllKeptFixpoint(e.content);
  }

  lemma {:induction false} PruneAllKeptFixpoint(es: seq<PostElement>)
    requires AllKeptPruned(es)
    ensures PruneAll(es) == es
    ensures KeepNonEmpty(es) == es
    decreases es, 0
  {
    if es != [] {
      PrunedIsFixpoint(es[0]);
      PruneAllKeptFixpoint(es[1..]);
      assert es == [es[0]] + es[1..];
    }
  }

  /** Pruning twice is pruning once. */
  lemma PruneIdempotent(e: PostElement)
    ensures Prune(Prune(e)) == Prune(e)
  {
    PruneIsPruned(e);
    PrunedIsFixpoint(Prune(e));
  }

  /** Pruning keeps Text, Link and Image elements childless. */
  lemma {:induction false} PruneWellFormed(e: PostElement)
    requires WellFormed(e)
    ensures WellFormed(Prune(e))
    decreases e, 1
  {
    PruneAllWellFormed(e.content);
    KeepNonEmptyWellFormed(PruneAll(e.content));
  }

  lemma {:induction false} PruneAllWellFormed(es: seq<PostElement>)
    requires AllWellFormed(es)
    ensures AllWellFormed(PruneAll(es))
    decreases es, 0
  {
    if es != [] {
      PruneWellFormed(es[0]);
      PruneAllWellFormed(es[1..]);
      assert PruneAll(es)[1..] == PruneAll(es[1..]);
    }
  }
}
