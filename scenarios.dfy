/**
 * Two small posts worked through the grouping pass, showing what
 * `associateNameToElements` returns for a labelled value and for a
 * labelled link once `pairUp` has rewritten the titles in place.
 */
module Scenarios {
  import opened Wrappers
  import opened Strings
  import opened Elements
  import opened Grouping

  function TextOf(s: string): PostElement {
    PostElement(Text, "", s, None, [])
  }

  /** No Generic element: the filter keeps everything and the merge is the rewritten list. */
  lemma NoGenericMerge(es: seq<PostElement>, rv: seq<PostElement>)
    requires forall i :: 0 <= i < |es| ==> es[i].kind != Generic
    requires |rv| == |es|
    ensures NonGeneric(es) == es
    ensures MergeBack(es, rv) == rv
    decreases |es|
  {
    if es != [] {
      var init := es[..|es| - 1];
      NoGenericMerge(init, rv[..|rv| - 1]);
      assert es == init + [es[|es| - 1]];
      assert rv == rv[..|rv| - 1] + [rv[|rv| - 1]];
    }
  }

  lemma VersionStrings()
    ensures EndsWith("Version:", ":") && !EndsWith("1.2.3", ":")
    ensures TitleName("Version:") == "Version"
    ensures MemberText("1.2.3") == "1.2.3"
    ensures Trim("1.2.3") == "1.2.3"
    ensures !StartsWithSpecial("1.2.3")
  {
    assert "Version:"[8 - 1..] == ":";
    assert "Version:"[..8 - 1] == "Version";
    assert '3' !in SpecialChars;
    assert '1' !in SpecialChars;
    assert !IsSpace('V') && !IsSpace('n') && !IsSpace('1') && !IsSpace('3');
  }

  lemma DeveloperStrings()
    ensures EndsWith("Developer:", ":")
    ensures TitleName("Developer:") == "Developer"
    ensures Trim(Join([])) == ""
  {
    assert "Developer:"[10 - 1..] == ":";
    assert "Developer:"[..10 - 1] == "Developer";
    assert !IsSpace('D') && !IsSpace('r');
  }

  /** A title followed by one element that is not a title: the only title is at position 0. */
  lemma OneTitle(title: PostElement, member: PostElement)
    requires title.kind == Text && EndsWith(title.text, ":") && title.text != ":"
    requires !IsTitleAt([title, member], 1)
    ensures TitleIndexes([title, member]) == [0]
  {
    var es := [title, member];
    assert IsTitleAt(es, 0);
    assert TitlesBelow(es, 1) == [0];
  }

  /** ... and `parseGroupData` rewrites that title with the element as its only member. */
  lemma RewriteOneGroup(title: PostElement, member: PostElement)
    requires TitleIndexes([title, member]) == [0]
    ensures RewriteValid([title, member]) == [GroupTitle(title, [member]), member]
  {
    var es := [title, member];
    var g := GroupTitle(title, [member]);
    assert es[1..2] == [member];
    assert GroupOf(es, [0], 0) == g;
    assert TitleRecords(es) == [g];
    assert [g][..0] == [];
    assert Placed(es, [0], [g]) == [g, member];
  }

  /** The rewrite `pairUp` makes when a title is followed by one non-title element. */
  lemma PairUpOneGroup(title: PostElement, member: PostElement)
    requires title.kind == Text && EndsWith(title.text, ":") && title.text != ":"
    requires member.kind != Generic && !IsTitleAt([title, member], 1)
    ensures PairUpEffect([title, member]) == [GroupTitle(title, [member]), member]
  {
    var es := [title, member];
    OneTitle(title, member);
    RewriteOneGroup(title, member);
    NoGenericMerge(es, RewriteValid(es));
  }

  /** Two records built from a list of two elements, one step after the other. */
  lemma AssociateTwo(a: PostElement, b: PostElement)
    ensures Associate([a, b]) == AssociateStep(AssociateStep([], a), b)
  {
    assert [a, b][..1] == [a];
    assert [a][..0] == [];
  }

  /** The title "Version:" with the member "1.2.3". */
  lemma VersionGroup()
    ensures GroupTitle(TextOf("Version:"), [TextOf("1.2.3")]) == PostElement(Text, "Version", "1.2.3", None, [])
  {
    VersionStrings();
    var value := TextOf("1.2.3");
    assert [value][..0] == [];
    assert MemberTexts([value]) == [MemberText("1.2.3")];
    assert Contributions([value]) == [];
  }

  /**
   * "Version:" followed by "1.2.3": `pairUp` turns the title into
   * name "Version", text "1.2.3", and the loop then replaces that name by
   * the text and visits the value again, so both records are named
   * "1.2.3" and carry no text.
   */
  lemma VersionField()
    ensures AssociateNames([TextOf("Version:"), TextOf("1.2.3")])
         == [PostElement(Text, "1.2.3", "", None, []), PostElement(Text, "1.2.3", "", None, [])]
  {
    var value := TextOf("1.2.3");
    var title := PostElement(Text, "Version", "1.2.3", None, []);
    VersionStrings();
    VersionGroup();
    assert !IsTitleAt([TextOf("Version:"), value], 1);
    PairUpOneGroup(TextOf("Version:"), value);
    AssociateTwo(title, value);
    VersionRecords();
  }

  lemma VersionRecords()
    ensures var rec := PostElement(Text, "1.2.3", "", None, []);
      AssociateStep(AssociateStep([], PostElement(Text, "Version", "1.2.3", None, [])), TextOf("1.2.3")) == [rec, rec]
  {
    VersionStrings();
    var rec := PostElement(Text, "1.2.3", "", None, []);
    var title := PostElement(Text, "Version", "1.2.3", None, []);
    assert !IsData(title) && !IsOverview(title);
    assert !IsData(TextOf("1.2.3")) && !IsOverview(TextOf("1.2.3"));
    assert AssociateStep([], PostElement(Text, "Version", "1.2.3", None, [])) == [rec];
    assert AssociateStep([rec], TextOf("1.2.3")) == [rec] + [rec];
  }

  /** The title "Developer:" with a link as its only member. */
  lemma DeveloperGroup(link: PostElement)
    requires link.kind == Link
    ensures GroupTitle(TextOf("Developer:"), [link]) == PostElement(Text, "Developer", "", None, [link])
  {
    DeveloperStrings();
    assert [link][..0] == [];
    assert MemberTexts([link]) == [];
    assert Contributions([link]) == [link];
  }

  /**
   * "Developer:" followed by a link: `pairUp` gives the title the link as
   * its only child and an empty text; the loop renames the title after
   * that empty text and pushes the link a second time.
   */
  lemma LinkField(link: PostElement)
    requires link.kind == Link && link.content == []
    ensures AssociateNames([TextOf("Developer:"), link])
         == [PostElement(Text, "", "", None, [link, link])]
  {
    var title := PostElement(Text, "Developer", "", None, [link]);
    DeveloperGroup(link);
    PairUpOneGroup(TextOf("Developer:"), link);
    AssociateTwo(title, link);
    assert !IsOverview(link);
    assert !IsOverview(title) by {
      assert title.content[0].kind != Text;
    }
    assert AssociateStep([], title) == [PostElement(Text, "", "", None, [link])];
    assert [link] + [link] == [link, link];
  }
}
