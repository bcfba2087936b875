/**
 * The grouping pass of post-parse.ts: `pairUp` and `parseGroupData` rewrite
 * every "title" element in place, and `associateNameToElements` then walks
 * the rewritten list and builds the title/value records.
 *
 * In the source, `pairUp` mutates the title objects it finds (recursing into
 * Generic containers) and its return value is thrown away. The value model
 * makes that effect explicit: `PairUpEffect` is the element list as the
 * loop of `associateNameToElements` sees it afterwards, and `PairUpData` is
 * the discarded return value.
 */
module Grouping {
  import opened Strings
  import opened Elements

  /** `elements.filter((e) => e.type !== "Generic")`. */
  function NonGeneric(es: seq<PostElement>): (r: seq<PostElement>)
    ensures |r| <= |es|
  {
    if es == [] then []
    else
      var last := es[|es| - 1];
      NonGeneric(es[..|es| - 1]) + (if last.kind == Generic then [] else [last])
  }

  /** The filter keeps exactly the elements that are not Generic. */
  lemma {:induction false} NonGenericMembers(es: seq<PostElement>)
    ensures var r := NonGeneric(es);
      (forall i :: 0 <= i < |r| ==> r[i].kind != Generic)
      && (forall x :: x in r <==> x in es && x.kind != Generic)
  {
    if es != [] {
      var init := es[..|es| - 1];
      NonGenericMembers(init);
      assert es == init + [es[|es| - 1]];
    }
  }

  /** The non-Generic elements of a prefix are a prefix of the non-Generic elements. */
  lemma {:induction false} NonGenericPrefix(es: seq<PostElement>, n: nat)
    requires n <= |es|
    ensures |NonGeneric(es[..n])| <= |NonGeneric(es)|
    decreases |es|
  {
    if n < |es| {
      NonGenericPrefix(es[..|es| - 1], n);
      assert es[..|es| - 1][..n] == es[..n];
    } else {
      assert es[..n] == es;
    }
  }

  /**
   * The filter keeps order: a non-Generic element sits in the filtered list
   * right after the non-Generic elements that precede it.
   */
  lemma {:induction false} NonGenericAt(es: seq<PostElement>, i: nat)
    requires i < |es| && es[i].kind != Generic
    ensures |NonGeneric(es[..i])| < |NonGeneric(es)|
    ensures NonGeneric(es)[|NonGeneric(es[..i])|] == es[i]
    decreases |es|
  {
    var init := es[..|es| - 1];
    if i == |es| - 1 {
      assert es[..i] == init;
    } else {
      assert init[i] == es[i];
      NonGenericAt(init, i);
      assert init[..i] == es[..i];
    }
  }

  /**
   * The title test of `pairUp` at position `i` of the non-Generic elements:
   * a Text element whose text ends with ":" without being just ":", or
   * whose next element's text starts with ":".
   */
  predicate IsTitleAt(valid: seq<PostElement>, i: nat)
    requires i < |valid|
  {
    valid[i].kind == Text
    && ((EndsWith(valid[i].text, ":") && valid[i].text != ":")
        || (i + 1 < |valid| && StartsWith(valid[i + 1].text, ":")))
  }

  /** The title positions below `n`, in increasing order. */
  function TitlesBelow(valid: seq<PostElement>, n: nat): (r: seq<nat>)
    requires n <= |valid|
    ensures |r| <= n
  {
    if n == 0 then []
    else TitlesBelow(valid, n - 1) + (if IsTitleAt(valid, n - 1) then [n - 1] else [])
  }

  lemma {:induction false} TitlesBelowSpec(valid: seq<PostElement>, n: nat)
    requires n <= |valid|
    ensures var r := TitlesBelow(valid, n);
      ValidIndexes(r, n)
      && (forall j :: 0 <= j < |r| ==> IsTitleAt(valid, r[j]))
      && (forall i :: 0 <= i < n && IsTitleAt(valid, i) ==> i in r)
  {
    if n > 0 {
      TitlesBelowSpec(valid, n - 1);
    }
  }

  /** Title positions inside a list of length `n`, strictly increasing. */
  predicate ValidIndexes(idx: seq<nat>, n: nat) {
    (forall j :: 0 <= j < |idx| ==> idx[j] < n)
    && (forall j, k :: 0 <= j < k < |idx| ==> idx[j] < idx[k])
  }

  /**
   * `indexes` of `pairUp`: the positions of the titles, in increasing order.
   * The source maps each title back to its position with `indexOf`, which
   * compares object identity, so every title yields its own position.
   */
  function TitleIndexes(valid: seq<PostElement>): seq<nat> {
    TitlesBelow(valid, |valid|)
  }

  /** The indexes lie inside the list and increase strictly. */
  lemma TitleIndexesValid(valid: seq<PostElement>)
    ensures ValidIndexes(TitleIndexes(valid), |valid|)
  {
    TitlesBelowSpec(valid, |valid|);
  }

  /** The indexes are exactly the title positions. */
  lemma TitleIndexesSpec(valid: seq<PostElement>)
    ensures var r := TitleIndexes(valid);
      ValidIndexes(r, |valid|)
      && (forall j :: 0 <= j < |r| ==> IsTitleAt(valid, r[j]))
      && (forall i :: 0 <= i < |valid| ==> (IsTitleAt(valid, i) <==> i in r))
  {
    TitlesBelowSpec(valid, |valid|);
  }

  /** The first title at or after `from`, or `|valid|` when there is none. */
  function NextTitle(valid: seq<PostElement>, from: nat): (r: nat)
    requires from <= |valid|
    ensures from <= r <= |valid|
    decreases |valid| - from
  {
    if from == |valid| then |valid|
    else if IsTitleAt(valid, from) then from
    else NextTitle(valid, from + 1)
  }

  /** `NextTitle` finds a title, or the end, and skips no title. */
  lemma {:induction false} NextTitleSpec(valid: seq<PostElement>, from: nat)
    requires from <= |valid|
    ensures var r := NextTitle(valid, from);
      (forall t :: from <= t < r ==> !IsTitleAt(valid, t))
      && (r < |valid| ==> IsTitleAt(valid, r))
    decreases |valid| - from
  {
    if from < |valid| && !IsTitleAt(valid, from) {
      NextTitleSpec(valid, from + 1);
    }
  }

  lemma {:induction false} NextTitleUnique(valid: seq<PostElement>, from: nat, r: nat)
    requires from <= r <= |valid|
    requires forall t :: from <= t < r ==> !IsTitleAt(valid, t)
    requires r < |valid| ==> IsTitleAt(valid, r)
    ensures NextTitle(valid, from) == r
    decreases r - from
  {
    if from < r {
      NextTitleUnique(valid, from + 1, r);
    }
  }

  /** `indexes[index + 1] ?? elements.length`: where the group of title `index` ends. */
  function GroupEnd(indexes: seq<nat>, index: nat, len: nat): nat {
    if index + 1 < |indexes| then indexes[index + 1] else len
  }

  /**
   * A group spans from its title up to the next title, exclusive, or to
   * the end of the list.
   */
  lemma GroupEndIsNextTitle(valid: seq<PostElement>, j: nat)
    requires j < |TitleIndexes(valid)|
    ensures var idx := TitleIndexes(valid);
      idx[j] + 1 <= |valid| && GroupEnd(idx, j, |valid|) == NextTitle(valid, idx[j] + 1)
  {
    var idx := TitleIndexes(valid);
    TitleIndexesSpec(valid);
    var a, b := idx[j], GroupEnd(idx, j, |valid|);
    forall t | a + 1 <= t < b
      ensures !IsTitleAt(valid, t)
    {
      forall m | 0 <= m < |idx|
        ensures idx[m] != t
      {
        if m < j {
          assert idx[m] < idx[j];
        } else if m > j {
          assert idx[j + 1] <= idx[m];
        }
      }
    }
    NextTitleUnique(valid, a + 1, b);
  }

  /** The title's name: at most one trailing special character removed, then trimmed. */
  function TitleName(text: string): string {
    Trim(DropTrailingSpecial(text))
  }

  /** A Text member's text: one leading ":" and one trailing special character removed, then trimmed. */
  function MemberText(text: string): string {
    Trim(DropTrailingSpecial(DropLeadingColon(text)))
  }

  /** The cleaned texts of the Text members, in order. */
  function MemberTexts(members: seq<PostElement>): (r: seq<string>)
    ensures |r| <= |members|
  {
    if members == [] then []
    else
      var last := members[|members| - 1];
      MemberTexts(members[..|members| - 1]) + (if last.kind == Text then [MemberText(last.text)] else [])
  }

  /** What one member adds to the title: nothing for Text, a spoiler its children, anything else itself. */
  function Contribution(e: PostElement): seq<PostElement> {
    if e.kind == Text then [] else if e.kind == Spoiler then e.content else [e]
  }

  /** What the members add to the title, in order. */
  function Contributions(members: seq<PostElement>): seq<PostElement> {
    if members == [] then []
    else Contributions(members[..|members| - 1]) + Contribution(members[|members| - 1])
  }

  lemma ContributionsSnoc(members: seq<PostElement>, i: nat)
    requires i < |members|
    ensures Contributions(members[..i + 1]) == Contributions(members[..i]) + Contribution(members[i])
  {
    assert members[..i + 1][..i] == members[..i];
  }

  /** The title element once `parseGroupData` has rewritten it. */
  function GroupTitle(title: PostElement, members: seq<PostElement>): PostElement {
    title.(name := TitleName(title.text),
           text := Trim(Join(MemberTexts(members))),
           content := title.content + Contributions(members))
  }

  /**
   * The rewritten title keeps its kind and link target, is named after its
   * own former text and carries its former children followed by what the
   * members contribute; its text has no white space at either end.
   */
  lemma GroupTitleShape(title: PostElement, members: seq<PostElement>)
    ensures var r := GroupTitle(title, members);
      r.kind == title.kind && r.href == title.href
      && r.name == Trim(DropTrailingSpecial(title.text))
      && r.content[..|title.content|] == title.content
      && r.content[|title.content|..] == Contributions(members)
      && |r.content| == |title.content| + |Contributions(members)|
      && (r.text == [] || (!IsSpace(r.text[0]) && !IsSpace(r.text[|r.text| - 1])))
  {
    TrimSpec(Join(MemberTexts(members)));
  }

  /** A title written "Label:" is named "Label", trimmed. */
  lemma TitleNameDropsColon(text: string)
    requires EndsWith(text, ":")
    ensures TitleName(text) == Trim(text[..|text| - 1])
  {
    assert text[|text| - 1] == ':';
  }

  /** The members of `s` that are not Text, in order. */
  function NonTextOf(s: seq<PostElement>): seq<PostElement> {
    if s == [] then []
    else NonTextOf(s[..|s| - 1]) + (if s[|s| - 1].kind == Text then [] else [s[|s| - 1]])
  }

  /**
   * Without spoilers among the members, the title gains exactly the
   * non-Text members, in their order; a spoiler member would instead hand
   * over its own children.
   */
  lemma {:induction false} ContributionsWithoutSpoiler(members: seq<PostElement>)
    requires forall i :: 0 <= i < |members| ==> members[i].kind != Spoiler
    ensures Contributions(members) == NonTextOf(members)
    decreases |members|
  {
    if members != [] {
      ContributionsWithoutSpoiler(members[..|members| - 1]);
    }
  }

  /** Every Text member contributes one part to the title's text, and only those. */
  lemma {:induction false} MemberTextsCount(members: seq<PostElement>)
    ensures |MemberTexts(members)| + |NonTextOf(members)| == |members|
    decreases |members|
  {
    if members != [] {
      MemberTextsCount(members[..|members| - 1]);
    }
  }

  /** The title number `j` of `idx`, rewritten with its group. */
  function GroupOf(valid: seq<PostElement>, idx: seq<nat>, j: nat): PostElement
    requires ValidIndexes(idx, |valid|) && j < |idx|
  {
    GroupTitle(valid[idx[j]], valid[idx[j] + 1..GroupEnd(idx, j, |valid|)])
  }

  /**
   * `parseGroupData`: the group is the slice from `start` to the next title
   * index (or the end); its first element is the title, which gets its new
   * name, its new text and the members' contributions.
   */
  method ParseGroupData(start: nat, index: nat, indexes: seq<nat>, elements: seq<PostElement>)
    returns (title: PostElement)
    requires index < |indexes| && indexes[index] == start
    requires ValidIndexes(indexes, |elements|)
    ensures title == GroupTitle(elements[start], elements[start + 1..GroupEnd(indexes, index, |elements|)])
    ensures title == GroupOf(elements, indexes, index)
  {
    var nextIndex := GroupEnd(indexes, index, |elements|);
    var group := elements[start..nextIndex];
    title := group[0];
    group := group[1..];
    assert group == elements[start + 1..nextIndex];

    title := title.(name := TitleName(title.text));
    title := title.(text := Trim(Join(MemberTexts(group))));

    var added := NonTextContributions(group);
    title := title.(content := title.content + added);
  }

  /**
   * `group.filter((e) => e.type !== "Text").forEach(...)`: what the pushes
   * onto the title's children add, member after member.
   */
  method NonTextContributions(group: seq<PostElement>) returns (added: seq<PostElement>)
    ensures added == Contributions(group)
  {
    added := [];
    for i := 0 to |group|
      invariant added == Contributions(group[..i])
    {
      ContributionsSnoc(group, i);
      if group[i].kind != Text {
        if group[i].kind == Spoiler {
          added := added + group[i].content;
        } else {
          added := added + [group[i]];
        }
      }
    }
    assert group[..|group|] == group;
  }

  /** `valid` with `recs[m]` written over position `idx[m]`, for every `m` in turn. */
  function Placed(valid: seq<PostElement>, idx: seq<nat>, recs: seq<PostElement>): (r: seq<PostElement>)
    requires ValidIndexes(idx, |valid|) && |recs| <= |idx|
    ensures |r| == |valid|
  {
    if recs == [] then valid
    else Placed(valid, idx, recs[..|recs| - 1])[idx[|recs| - 1] := recs[|recs| - 1]]
  }

  /** A position no record is written to keeps its element. */
  lemma {:induction false} PlacedUntouched(valid: seq<PostElement>, idx: seq<nat>, recs: seq<PostElement>, i: nat)
    requires ValidIndexes(idx, |valid|) && |recs| <= |idx| && i < |valid|
    requires forall m :: 0 <= m < |recs| ==> idx[m] != i
    ensures Placed(valid, idx, recs)[i] == valid[i]
    decreases |recs|
  {
    if recs != [] {
      PlacedUntouched(valid, idx, recs[..|recs| - 1], i);
    }
  }

  /** The position of record `m` holds that record: later records go to larger positions. */
  lemma {:induction false} PlacedWritten(valid: seq<PostElement>, idx: seq<nat>, recs: seq<PostElement>, m: nat)
    requires ValidIndexes(idx, |valid|) && m < |recs| <= |idx|
    ensures Placed(valid, idx, recs)[idx[m]] == recs[m]
    decreases |recs|
  {
    var init := recs[..|recs| - 1];
    if m < |recs| - 1 {
      assert idx[m] < idx[|recs| - 1];
      PlacedWritten(valid, idx, init, m);
    }
  }

  /** `data` before the Generic results are appended: one rewritten title per group, in order. */
  function TitleRecords(valid: seq<PostElement>): (r: seq<PostElement>)
    ensures |r| == |TitleIndexes(valid)|
  {
    TitleIndexesValid(valid);
    var idx := TitleIndexes(valid);
    seq(|idx|, m requires 0 <= m < |idx| => GroupOf(valid, idx, m))
  }

  /**
   * The non-Generic list once `parseGroupData` has rewritten every title in
   * place, group after group.
   */
  function RewriteValid(valid: seq<PostElement>): (r: seq<PostElement>)
    ensures |r| == |valid|
  {
    TitleIndexesValid(valid);
    Placed(valid, TitleIndexes(valid), TitleRecords(valid))
  }

  /** The rewritten title at position `m` of the title list, which is position `i` of the list. */
  lemma {:induction false} GroupOfIsNextTitle(valid: seq<PostElement>, m: nat, i: nat)
    requires m < |TitleIndexes(valid)| && TitleIndexes(valid)[m] == i
    ensures ValidIndexes(TitleIndexes(valid), |valid|)
      && GroupOf(valid, TitleIndexes(valid), m) == GroupTitle(valid[i], valid[i + 1..NextTitle(valid, i + 1)])
  {
    TitleIndexesValid(valid);
    var idx := TitleIndexes(valid);
    GroupEndIsNextTitle(valid, m);
    var members := valid[i + 1..GroupEnd(idx, m, |valid|)];
    assert members == valid[i + 1..NextTitle(valid, i + 1)];
  }

  /**
   * Position by position: a title is replaced by its group's title, whose
   * members run up to the next title or the end; every other element is
   * left as it was.
   */
  lemma RewriteValidAt(valid: seq<PostElement>, i: nat)
    requires i < |valid|
    ensures IsTitleAt(valid, i) ==>
      RewriteValid(valid)[i] == GroupTitle(valid[i], valid[i + 1..NextTitle(valid, i + 1)])
    ensures !IsTitleAt(valid, i) ==> RewriteValid(valid)[i] == valid[i]
  {
    var idx := TitleIndexes(valid);
    var recs := TitleRecords(valid);
    TitleIndexesSpec(valid);
    if IsTitleAt(valid, i) {
      var m :| 0 <= m < |idx| && idx[m] == i;
      PlacedWritten(valid, idx, recs, m);
      GroupOfIsNextTitle(valid, m, i);
      assert RewriteValid(valid)[i] == GroupOf(valid, idx, m);
    } else {
      PlacedUntouched(valid, idx, recs, i);
    }
  }

  /**
   * The element list after `pairUp(elements)`: the non-Generic elements are
   * replaced by their rewritten forms, and every Generic element has its
   * children rewritten in the same way.
   */
  function PairUpEffect(es: seq<PostElement>): (r: seq<PostElement>)
    ensures |r| == |es|
    decreases es, 1
  {
    MergeBack(es, RewriteValid(NonGeneric(es)))
  }

  /**
   * Position by position, what `pairUp` leaves in the list: a Generic
   * element keeps its place and has its own children rewritten; any other
   * element is looked up among the non-Generic elements, where a title is
   * replaced by its group's title (members up to the next title) and every
   * other element is left as it was.
   */
  lemma {:induction false} PairUpEffectAt(es: seq<PostElement>, i: nat)
    requires i < |es|
    ensures es[i].kind == Generic ==>
      PairUpEffect(es)[i] == es[i].(content := PairUpEffect(es[i].content))
    ensures es[i].kind != Generic ==>
      var valid := NonGeneric(es);
      var k := |NonGeneric(es[..i])|;
      k < |valid| && valid[k] == es[i]
      && (IsTitleAt(valid, k) ==>
            PairUpEffect(es)[i] == GroupTitle(es[i], valid[k + 1..NextTitle(valid, k + 1)]))
      && (!IsTitleAt(valid, k) ==> PairUpEffect(es)[i] == es[i])
  {
    if es[i].kind == Generic {
      PairUpEffectAtGeneric(es, i);
    } else {
      PairUpEffectAtOther(es, i);
    }
  }

  /** The Generic case of `PairUpEffectAt`. */
  lemma {:induction false} PairUpEffectAtGeneric(es: seq<PostElement>, i: nat)
    requires i < |es| && es[i].kind == Generic
    ensures PairUpEffect(es)[i] == es[i].(content := PairUpEffect(es[i].content))
  {
    MergeBackAtGeneric(es, RewriteValid(NonGeneric(es)), i);
  }

  /** The non-Generic case of `PairUpEffectAt`. */
  lemma {:induction false} PairUpEffectAtOther(es: seq<PostElement>, i: nat)
    requires i < |es| && es[i].kind != Generic
    ensures var valid := NonGeneric(es);
      var k := |NonGeneric(es[..i])|;
      k < |valid| && valid[k] == es[i]
      && (IsTitleAt(valid, k) ==>
            PairUpEffect(es)[i] == GroupTitle(es[i], valid[k + 1..NextTitle(valid, k + 1)]))
      && (!IsTitleAt(valid, k) ==> PairUpEffect(es)[i] == es[i])
  {
    var valid := NonGeneric(es);
    var k := |NonGeneric(es[..i])|;
    NonGenericAt(es, i);
    PairUpEffectRank(es, i);
    RewriteValidAt(valid, k);
  }

  /** After `pairUp`, a non-Generic element is the rewritten element at its rank. */
  lemma {:induction false} PairUpEffectRank(es: seq<PostElement>, i: nat)
    requires i < |es| && es[i].kind != Generic
    ensures |NonGeneric(es[..i])| < |NonGeneric(es)|
    ensures PairUpEffect(es)[i] == RewriteValid(NonGeneric(es))[|NonGeneric(es[..i])|]
  {
    MergeBackAtOther(es, RewriteValid(NonGeneric(es)), i);
  }

  /** Puts the rewritten non-Generic elements `rv` back in place among the Generic ones. */
  function MergeBack(es: seq<PostElement>, rv: seq<PostElement>): (r: seq<PostElement>)
    requires |rv| == |NonGeneric(es)|
    ensures |r| == |es|
    decreases es, 0
  {
    if es == [] then []
    else
      var last := es[|es| - 1];
      if last.kind == Generic then
        MergeBack(es[..|es| - 1], rv) + [last.(content := PairUpEffect(last.content))]
      else
        MergeBack(es[..|es| - 1], rv[..|rv| - 1]) + [rv[|rv| - 1]]
  }

  /** The value `pairUp` returns (and its caller ignores). */
  function PairUpData(es: seq<PostElement>): seq<PostElement>
    decreases es, 1
  {
    TitleRecords(NonGeneric(es)) + GenericData(es)
  }

  /** `[].concat(...genericElementsPairs)`. */
  function GenericData(es: seq<PostElement>): seq<PostElement>
    decreases es, 0
  {
    if es == [] then []
    else
      var last := es[|es| - 1];
      GenericData(es[..|es| - 1]) + (if last.kind == Generic then PairUpData(last.content) else [])
  }

  /** `MergeBack` on a non-empty list, one step unfolded. */
  lemma MergeBackUnfold(es: seq<PostElement>, rv: seq<PostElement>)
    requires es != [] && |rv| == |NonGeneric(es)|
    ensures es[|es| - 1].kind == Generic ==>
      |rv| == |NonGeneric(es[..|es| - 1])|
      && MergeBack(es, rv) == MergeBack(es[..|es| - 1], rv) + [es[|es| - 1].(content := PairUpEffect(es[|es| - 1].content))]
    ensures es[|es| - 1].kind != Generic ==>
      rv != [] && |rv| - 1 == |NonGeneric(es[..|es| - 1])|
      && MergeBack(es, rv) == MergeBack(es[..|es| - 1], rv[..|rv| - 1]) + [rv[|rv| - 1]]
  {
  }

  /**
   * Position by position: a Generic element keeps everything but its
   * children, which are rewritten in turn ...
   */
  lemma {:induction false} MergeBackAtGeneric(es: seq<PostElement>, rv: seq<PostElement>, i: nat)
    requires |rv| == |NonGeneric(es)| && i < |es| && es[i].kind == Generic
    ensures MergeBack(es, rv)[i] == es[i].(content := PairUpEffect(es[i].content))
    decreases |es|
  {
    var init := es[..|es| - 1];
    MergeBackUnfold(es, rv);
    if i < |es| - 1 {
      var rv' := if es[|es| - 1].kind == Generic then rv else rv[..|rv| - 1];
      assert init[i] == es[i];
      MergeBackAtGeneric(init, rv', i);
    }
  }

  /**
   * ... and any other element is replaced by the rewritten element at its
   * rank among the non-Generic ones.
   */
  lemma {:induction false} MergeBackAtOther(es: seq<PostElement>, rv: seq<PostElement>, i: nat)
    requires |rv| == |NonGeneric(es)| && i < |es| && es[i].kind != Generic
    ensures |NonGeneric(es[..i])| < |rv| && MergeBack(es, rv)[i] == rv[|NonGeneric(es[..i])|]
    decreases |es|
  {
    var init := es[..|es| - 1];
    MergeBackUnfold(es, rv);
    if i == |es| - 1 {
      assert es[..i] == init;
    } else {
      var rv' := if es[|es| - 1].kind == Generic then rv else rv[..|rv| - 1];
      assert init[i] == es[i];
      MergeBackAtOther(init, rv', i);
      assert init[..i] == es[..i];
      assert rv'[|NonGeneric(es[..i])|] == rv[|NonGeneric(es[..i])|];
    }
  }

  /** Writing one more record over the next title position. */
  lemma PlacedSnoc(valid: seq<PostElement>, idx: seq<nat>, recs: seq<PostElement>, x: PostElement)
    requires ValidIndexes(idx, |valid|) && |recs| < |idx|
    ensures Placed(valid, idx, recs + [x]) == Placed(valid, idx, recs)[idx[|recs|] := x]
  {
    assert (recs + [x])[..|recs|] == recs;
  }

  /** The title records up to title `j`, inclusive. */
  lemma TitleRecordsSnoc(valid: seq<PostElement>, j: nat)
    requires j < |TitleIndexes(valid)|
    ensures ValidIndexes(TitleIndexes(valid), |valid|)
      && TitleRecords(valid)[..j + 1] == TitleRecords(valid)[..j] + [GroupOf(valid, TitleIndexes(valid), j)]
  {
    TitleIndexesValid(valid);
    var recs := TitleRecords(valid);
    assert recs[j] == GroupOf(valid, TitleIndexes(valid), j);
    assert recs[..j + 1] == recs[..j] + [recs[j]];
  }

  /**
   * `indexes.map((i, j) => parseGroupData(i, j, indexes, validElements))`:
   * every title is rewritten with its group; `titles` is the mapped array.
   * Each call reads only its own title and members, which no earlier call
   * has changed, so the calls can all read the list as it was.
   */
  method MapGroups(valid: seq<PostElement>) returns (titles: seq<PostElement>, rv: seq<PostElement>)
    ensures titles == TitleRecords(valid)
    ensures rv == RewriteValid(valid)
  {
    var indexes := TitleIndexes(valid);
    TitleIndexesValid(valid);
    rv := valid;
    titles := [];
    for j := 0 to |indexes|
      invariant titles == TitleRecords(valid)[..j]
      invariant rv == Placed(valid, indexes, titles)
    {
      var title := ParseGroupData(indexes[j], j, indexes, valid);
      PlacedSnoc(valid, indexes, titles, title);
      TitleRecordsSnoc(valid, j);
      rv := rv[indexes[j] := title];
      titles := titles + [title];
    }
    assert TitleRecords(valid)[..|indexes|] == TitleRecords(valid);
  }

  /** `pairUp`, with its in-place effect returned as `rewritten`. */
  method PairUp(elements: seq<PostElement>) returns (data: seq<PostElement>, rewritten: seq<PostElement>)
    ensures data == PairUpData(elements)
    ensures rewritten == PairUpEffect(elements)
    decreases elements, 1
  {
    var valid := NonGeneric(elements);
    var titles, rv := MapGroups(valid);
    var flatten;
    flatten, rewritten := PairUpGenerics(elements, rv);
    data := titles + flatten;
  }

  /** One more element of `es`: the non-Generic count grows by one unless it is Generic. */
  lemma NonGenericSnoc(es: seq<PostElement>, i: nat)
    requires i < |es|
    ensures |NonGeneric(es[..i + 1])| == |NonGeneric(es[..i])| + (if es[i].kind == Generic then 0 else 1)
    ensures |NonGeneric(es[..i + 1])| <= |NonGeneric(es)|
  {
    assert es[..i + 1][..i] == es[..i];
    NonGenericPrefix(es, i + 1);
  }

  /** One more Generic element for `MergeBack`: it is appended with its children rewritten. */
  lemma MergeBackSnocGeneric(es: seq<PostElement>, rv: seq<PostElement>, i: nat)
    requires i < |es| && es[i].kind == Generic && |rv| == |NonGeneric(es[..i])|
    ensures |NonGeneric(es[..i + 1])| == |rv|
    ensures MergeBack(es[..i + 1], rv) == MergeBack(es[..i], rv) + [es[i].(content := PairUpEffect(es[i].content))]
  {
    assert es[..i + 1][..i] == es[..i];
  }

  /** One more non-Generic element for `MergeBack`: the next rewritten element is appended. */
  lemma MergeBackSnocOther(es: seq<PostElement>, rv: seq<PostElement>, i: nat)
    requires i < |es| && es[i].kind != Generic && |rv| == |NonGeneric(es[..i])| + 1
    ensures |NonGeneric(es[..i + 1])| == |rv|
    ensures MergeBack(es[..i + 1], rv) == MergeBack(es[..i], rv[..|rv| - 1]) + [rv[|rv| - 1]]
  {
    assert es[..i + 1][..i] == es[..i];
  }

  lemma GenericDataSnoc(es: seq<PostElement>, i: nat)
    requires i < |es|
    ensures GenericData(es[..i + 1]) ==
      GenericData(es[..i]) + (if es[i].kind == Generic then PairUpData(es[i].content) else [])
  {
    assert es[..i + 1][..i] == es[..i];
  }

  /**
   * `elements.filter((e) => e.type === "Generic").map((e) => pairUp(e.content))`,
   * flattened; `rewritten` puts the rewritten titles `rv` back among the
   * Generic elements, whose children are rewritten by the recursive calls.
   */
  method PairUpGenerics(elements: seq<PostElement>, rv: seq<PostElement>)
    returns (flatten: seq<PostElement>, rewritten: seq<PostElement>)
    requires |rv| == |NonGeneric(elements)|
    ensures flatten == GenericData(elements)
    ensures rewritten == MergeBack(elements, rv)
    decreases elements, 0
  {
    flatten := [];
    rewritten := [];
    var k := 0;
    for i := 0 to |elements|
      invariant k == |NonGeneric(elements[..i])| <= |rv|
      invariant rewritten == MergeBack(elements[..i], rv[..k])
      invariant flatten == GenericData(elements[..i])
    {
      NonGenericSnoc(elements, i);
      GenericDataSnoc(elements, i);
      var e := elements[i];
      if e.kind == Generic {
        MergeBackSnocGeneric(elements, rv[..k], i);
        var d, r := PairUp(e.content);
        flatten := flatten + d;
        rewritten := rewritten + [e.(content := r)];
      } else {
        MergeBackSnocOther(elements, rv[..k + 1], i);
        assert rv[..k + 1][..k] == rv[..k];
        rewritten := rewritten + [rv[k]];
        k := k + 1;
      }
    }
    assert elements[..|elements|] == elements && rv[..k] == rv;
  }

  /** `elementIsOverview`: a Text child whose upper-cased text starts with "OVERVIEW". */
  predicate IsOverview(e: PostElement) {
    exists i :: 0 <= i < |e.content| && e.content[i].kind == Text
      && StartsWith(ToUpper(e.content[i].text), "OVERVIEW")
  }

  /** The filter of `getOverviewFromElement`: what is left once "OVERVIEW" is cut out has a letter or digit. */
  predicate OverviewPart(c: PostElement) {
    var clean := Trim(RemoveFirst(ToUpper(c.text), "OVERVIEW"));
    c.kind == Text && clean != "" && HasAsciiAlnum(clean)
  }

  /** The original texts of the qualifying Text children, in order. */
  function OverviewParts(cs: seq<PostElement>): (r: seq<string>)
    ensures |r| <= |cs|
  {
    if cs == [] then []
    else OverviewParts(cs[..|cs| - 1]) + (if OverviewPart(cs[|cs| - 1]) then [cs[|cs| - 1].text] else [])
  }

  /** `getOverviewFromElement`: the qualifying texts joined with spaces. */
  function OverviewText(e: PostElement): string {
    Join(OverviewParts(e.content))
  }

  /** The merge test of `associateNameToElements`: a Text element starting with a special character. */
  predicate IsData(e: PostElement) {
    e.kind == Text && StartsWithSpecial(e.text)
  }

  /** One iteration of the loop of `associateNameToElements`. */
  function AssociateStep(pairs: seq<PostElement>, e: PostElement): (r: seq<PostElement>)
    ensures |pairs| <= |r| <= |pairs| + 1
  {
    if IsData(e) && |pairs| > 0 then
      var last := pairs[|pairs| - 1];
      var cleanText := Trim(DropLeadingSpecial(e.text));
      pairs[|pairs| - 1 := last.(text := if last.text == "" then cleanText else last.text,
                                 content := last.content + e.content)]
    else if IsOverview(e) then
      pairs + [e.(kind := Text, name := "Overview", text := OverviewText(e))]
    else if e.kind != Text && |pairs| > 0 then
      var last := pairs[|pairs| - 1];
      pairs[|pairs| - 1 := last.(content := last.content + [e])]
    else
      pairs + [e.(name := e.text, text := "")]
  }

  /** A step changes at most the last record and adds at most one. */
  lemma AssociateStepKeepsPrefix(pairs: seq<PostElement>, e: PostElement)
    requires pairs != []
    ensures AssociateStep(pairs, e)[..|pairs| - 1] == pairs[..|pairs| - 1]
  {
  }

  /** The records built from `es`, one element after the other. */
  function Associate(es: seq<PostElement>): (r: seq<PostElement>)
    ensures |r| <= |es|
    ensures es != [] ==> r != []
  {
    if es == [] then []
    else AssociateStep(Associate(es[..|es| - 1]), es[|es| - 1])
  }

  lemma AssociateSnoc(es: seq<PostElement>, i: nat)
    requires i < |es|
    ensures Associate(es[..i + 1]) == AssociateStep(Associate(es[..i]), es[i])
  {
    assert es[..i + 1][..i] == es[..i];
  }

  /** `associateNameToElements`: the records built from the list as `pairUp` left it. */
  function AssociateNames(elements: seq<PostElement>): (r: seq<PostElement>)
    ensures |r| <= |elements|
    ensures r == [] <==> elements == []
  {
    Associate(PairUpEffect(elements))
  }

  /**
   * A data element met once a record exists never starts a record: it
   * fills the last record's text only if that text is empty, and hands its
   * children over; the earlier records do not change.
   */
  lemma DataMerges(es: seq<PostElement>, e: PostElement)
    requires IsData(e) && Associate(es) != []
    ensures var before, after := Associate(es), Associate(es + [e]);
      var n := |before|;
      |after| == n
      && after[..n - 1] == before[..n - 1]
      && after[n - 1].kind == before[n - 1].kind
      && after[n - 1].name == before[n - 1].name
      && (before[n - 1].text != "" ==> after[n - 1].text == before[n - 1].text)
      && (before[n - 1].text == "" ==> after[n - 1].text == Trim(DropLeadingSpecial(e.text)))
      && after[n - 1].content == before[n - 1].content + e.content
  {
    assert (es + [e])[..|es|] == es;
  }

  /** An overview element that is not merged becomes a new Text record named "Overview". */
  lemma OverviewRecord(es: seq<PostElement>, e: PostElement)
    requires IsOverview(e) && !(IsData(e) && Associate(es) != [])
    ensures var before, after := Associate(es), Associate(es + [e]);
      after == before + [PostElement(Text, "Overview", OverviewText(e), e.href, e.content)]
  {
    assert (es + [e])[..|es|] == es;
  }

  /**
   * A non-Text element that is neither merged nor an overview joins the
   * children of the last record, when there is one.
   */
  lemma MemberJoinsLast(es: seq<PostElement>, e: PostElement)
    requires e.kind != Text && !IsOverview(e) && Associate(es) != []
    ensures var before, after := Associate(es), Associate(es + [e]);
      var n := |before|;
      |after| == n && after[..n - 1] == before[..n - 1]
      && after[n - 1] == before[n - 1].(content := before[n - 1].content + [e])
  {
    assert (es + [e])[..|es|] == es;
  }

  /**
   * Any other element opens a record named after its text, with an empty
   * text; earlier records are left alone.
   */
  lemma TitleOpensRecord(es: seq<PostElement>, e: PostElement)
    requires !IsOverview(e)
    requires Associate(es) == [] || (e.kind == Text && !IsData(e))
    ensures Associate(es + [e]) == Associate(es) + [e.(name := e.text, text := "")]
  {
    assert (es + [e])[..|es|] == es;
  }

  /** Records, once closed by a later record, are never changed again. */
  lemma {:induction false} RecordsStable(es: seq<PostElement>, more: seq<PostElement>)
    ensures var a, b := Associate(es), Associate(es + more);
      |a| <= |b| && (a != [] ==> b[..|a| - 1] == a[..|a| - 1])
    decreases |more|
  {
    if more == [] {
      assert es + more == es;
    } else {
      var more' := more[..|more| - 1];
      assert (es + more)[..|es + more| - 1] == es + more';
      RecordsStable(es, more');
      var a, b', b := Associate(es), Associate(es + more'), Associate(es + more);
      if a != [] {
        assert b == AssociateStep(b', more[|more| - 1]);
        AssociateStepKeepsPrefix(b', more[|more| - 1]);
        assert b[..|a| - 1] == b[..|b'| - 1][..|a| - 1];
      }
    }
  }

  /** The loop of `associateNameToElements`, run after `pairUp`. */
  method AssociateNameToElements(elements: seq<PostElement>) returns (pairs: seq<PostElement>)
    ensures pairs == AssociateNames(elements)
  {
    var _, rewritten := PairUp(elements);
    pairs := [];
    for i := 0 to |rewritten|
      invariant pairs == Associate(rewritten[..i])
    {
      AssociateSnoc(rewritten, i);
      var e := rewritten[i];
      var startWithSpecial := StartsWithSpecial(e.text);
      if e.kind == Text && startWithSpecial && |pairs| > 0 {
        var lastPair := pairs[|pairs| - 1];
        var cleanText := Trim(DropLeadingSpecial(e.text));
        lastPair := lastPair.(text := if lastPair.text == "" then cleanText else lastPair.text);
        lastPair := lastPair.(content := lastPair.content + e.content);
        pairs := pairs[|pairs| - 1 := lastPair];
      } else if IsOverview(e) {
        e := e.(kind := Text, name := "Overview");
        e := e.(text := OverviewText(e));
        pairs := pairs + [e];
      } else if e.kind != Text && |pairs| > 0 {
        var lastPair := pairs[|pairs| - 1];
        lastPair := lastPair.(content := lastPair.content + [e]);
        pairs := pairs[|pairs| - 1 := lastPair];
      } else {
        var swap := e.(name := e.text, text := "");
        pairs := pairs + [swap];
      }
    }
    assert rewritten[..|rewritten|] == rewritten;
  }
}
