/**
 * `IPostElement` / `ILink`: one element of a parsed post, with its kind,
 * label, text, link target and ordered children.
 */
module Elements {
  import opened Wrappers
  import opened Strings

  datatype Kind = Generic | Text | Link | Image | Spoiler

  /**
   * `href` is `None` where the source object has no `href` property or the
   * attribute it was read from was missing (`undefined`).
   */
  datatype PostElement = PostElement(
    kind: Kind,
    name: string,
    text: string,
    href: Option<string>,
    content: seq<PostElement>)

  /** `createGenericElement()`. */
  function NewGeneric(): PostElement {
    PostElement(Generic, "", "", None, [])
  }

  /** `isPostElementUnknown`: no label and no text once trimmed. */
  predicate IsUnknown(e: PostElement) {
    Trim(e.name) == "" && Trim(e.text) == ""
  }

  /** `isPostElementEmpty`: unknown and without children. */
  predicate IsEmpty(e: PostElement) {
    |e.content| == 0 && IsUnknown(e)
  }

  /**
   * An element is unknown exactly when its name and its text consist of
   * white space only, whatever its kind and its children.
   */
  lemma UnknownIffBlank(e: PostElement)
    ensures IsUnknown(e) <==> AllSpace(e.name) && AllSpace(e.text)
    ensures forall cs :: IsUnknown(e.(content := cs)) == IsUnknown(e)
    ensures IsEmpty(e) <==> e.content == [] && AllSpace(e.name) && AllSpace(e.text)
  {
    TrimSpec(e.name);
    TrimSpec(e.text);
  }

  /**
   * Text, link and image elements never carry children, at any depth. The
   * parser only builds such trees, and on them the value model of the
   * grouping pass coincides with the source's shared-object behaviour.
   */
  predicate WellFormed(e: PostElement)
    decreases e, 1
  {
    (e.kind in {Text, Link, Image} ==> e.content == []) && AllWellFormed(e.content)
  }

  predicate AllWellFormed(es: seq<PostElement>)
    decreases es, 0
  {
    es == [] || (WellFormed(es[0]) && AllWellFormed(es[1..]))
  }

  lemma {:induction false} AllWellFormedAppend(a: seq<PostElement>, b: seq<PostElement>)
    ensures AllWellFormed(a + b) <==> AllWellFormed(a) && AllWellFormed(b)
  {
    if a == [] {
      assert a + b == b;
    } else {
      assert (a + b)[0] == a[0];
      assert (a + b)[1..] == a[1..] + b;
      AllWellFormedAppend(a[1..], b);
    }
  }

  /** `a` is `b` with some elements left out, the rest in their original order. */
  predicate IsSubsequence(a: seq<PostElement>, b: seq<PostElement>) {
    a == [] || (b != [] && ((a[0] == b[0] && IsSubsequence(a[1..], b[1..])) || IsSubsequence(a, b[1..])))
  }

  /** `s.filter((e) => !isPostElementEmpty(e))`. */
  function KeepNonEmpty(s: seq<PostElement>): (r: seq<PostElement>)
    ensures |r| <= |s|
    ensures forall x :: x in r ==> x in s && !IsEmpty(x)
    ensures forall i :: 0 <= i < |s| && !IsEmpty(s[i]) ==> s[i] in r
    ensures IsSubsequence(r, s)
  {
    if s == [] then []
    else
      var rest := KeepNonEmpty(s[1..]);
      assert forall i :: 1 <= i < |s| ==> s[i] == s[1..][i - 1];
      if IsEmpty(s[0]) then rest
      else
        assert ([s[0]] + rest)[1..] == rest;
        [s[0]] + rest
  }

  lemma {:induction false} KeepNonEmptyAppend(a: seq<PostElement>, b: seq<PostElement>)
    ensures KeepNonEmpty(a + b) == KeepNonEmpty(a) + KeepNonEmpty(b)
  {
    if a == [] {
      assert a + b == b;
    } else {
      assert (a + b)[0] == a[0];
      assert (a + b)[1..] == a[1..] + b;
      KeepNonEmptyAppend(a[1..], b);
    }
  }

  /** A sequence of non-empty elements is left as it is. */
  lemma KeepNonEmptySingle(e: PostElement)
    ensures KeepNonEmpty([e]) == if IsEmpty(e) then [] else [e]
  {
    assert [e][1..] == [];
  }

  lemma {:induction false} KeepNonEmptyWellFormed(s: seq<PostElement>)
    requires AllWellFormed(s)
    ensures AllWellFormed(KeepNonEmpty(s))
  {
    if s != [] {
      KeepNonEmptyWellFormed(s[1..]);
    }
  }

  lemma {:induction false} KeepNonEmptyOfNonEmpty(s: seq<PostElement>)
    requires forall i :: 0 <= i < |s| ==> !IsEmpty(s[i])
    ensures KeepNonEmpty(s) == s
  {
    if s != [] {
      KeepNonEmptyOfNonEmpty(s[1..]);
    }
  }
}
