/**
 * The assertions of the repository's unit tests for the page enrichment
 * step, each stated as a lemma about the model.
 */
module HtmlPreTests {
  import opened Wrappers
  import opened SequenceHead
  import opened CommitRecords
  import opened Committers
  import opened Recency
  import opened Links
  import opened Navigation

  lemma RemoveFirstTitleOfEmpty()
    ensures RemoveFirstTitle<string>([]) == []
  {
  }

  lemma RemoveFirstTitleDropsFirstChild()
    ensures RemoveFirstTitle(["a", "b", "c"]) == ["b", "c"]
  {
  }

  /** Two commits by `a2`; the later one's name and email are ignored. */
  lemma ExtractCommittersVector()
    ensures ExtractCommitters([
      Recognised(Some("a1_url"), "a1", "a1_email", None),
      Recognised(Some("a2_url"), "a2", "a2_email", None),
      Recognised(Some("a2_url"), "a2_different", "a2_email_different", None)
    ]) == [
      Committer(Some("a1_url"), "a1 | a1_email"),
      Committer(Some("a2_url"), "a2 | a2_email")
    ]
  {
    var r1 := Recognised(Some("a1_url"), "a1", "a1_email", None);
    var r2 := Recognised(Some("a2_url"), "a2", "a2_email", None);
    var r3 := Recognised(Some("a2_url"), "a2_different", "a2_email_different", None);
    var c1 := Committer(Some("a1_url"), "a1 | a1_email");
    var c2 := Committer(Some("a2_url"), "a2 | a2_email");
    assert ToCommitter(r1) == c1;
    assert ToCommitter(r2) == c2;
    assert [r1][..0] == [];
    assert KeysOf([]) == {};
    assert ExtractCommitters([r1]) == [c1];
    assert [r1, r2][..1] == [r1];
    KeysOfAppend([], c1);
    assert [] + [c1] == [c1];
    assert ExtractCommitters([r1, r2]) == [c1, c2];
    assert [r1, r2, r3][..2] == [r1, r2];
    KeysOfAppend([c1], c2);
    assert [c1] + [c2] == [c1, c2];
  }

  /**
   * The first record, in the `commit.author.date` shape, gives the date; the
   * second, in the `author.commit` shape, is not consulted. The avatar URL
   * and email the test leaves out do not matter.
   */
  lemma ExtractLastModifiedVector(avatar: Option<string>, email: string)
    ensures ExtractLastModified([
      Recognised(avatar, "a1", email, Some("01 Jan 2018 00:01:00 GMT")),
      Unrecognised
    ]) == Some(LastModified("01 Jan 2018 00:01:00 GMT"))
  {
  }

  /** The rendered list of the test's table of contents, before and after its one link attribute. */
  const ListBefore: string := "<ul>\n<li>a</li>\n<li>b</li>\n<li><a "
  const ListAfter: string := ">link</a></li>\n</ul>"

  /** The rendered list with the given link attribute. */
  function ListFragment(href: string): string {
    ListBefore + href + ListAfter
  }

  /** The list fragment with the markdown link is the test's input string, character for character. */
  lemma SourceListIsTestString()
    ensures ListFragment("href=\"link.md\"")
      == "<ul>\n<li>a</li>\n<li>b</li>\n<li><a href=\"link.md\">link</a></li>\n</ul>"
  {
  }

  /** The list fragment with the published link is the test's expected string, character for character. */
  lemma PublishedListIsTestString()
    ensures ListFragment("href=\"/link.html\"")
      == "<ul>\n<li>a</li>\n<li>b</li>\n<li><a href=\"/link.html\">link</a></li>\n</ul>"
  {
  }

  /** The rendered list keeps its text and publishes its one markdown link. */
  lemma ListFragmentRewritten()
    ensures RewriteLinks(ListFragment("href=\"link.md\"")) == ListFragment("href=\"/link.html\"")
  {
    var source := HrefOpen + "link.md" + [Quote];
    var published := HrefOpen + PublishedTarget("link.md") + [Quote];
    assert source == "href=\"link.md\"";
    assert PublishedTarget("link.md") == "/link.html";
    assert published == "href=\"/link.html\"";
    assert 'h' !in ListBefore && 'h' !in ListAfter;
    NoLetterNoHref(ListBefore);
    NoLetterNoHref(ListAfter);
    OneLinkRewritten(ListBefore, "link.md", ListAfter);
    assert ListFragment(source) == ListBefore + (source + ListAfter);
    assert ListFragment(published) == ListBefore + (published + ListAfter);
  }

  lemma LineBreakKept()
    ensures RewriteLinks("\n") == "\n"
  {
    PlainPrefixCopied("\n", []);
    assert "\n" + [] == "\n";
  }

  /** The title fragment is dropped, the line break kept and `link.md` published as `/link.html`. */
  lemma ExtractNavVector()
    ensures ExtractNav([
      "<h1>Table of contents</h1>",
      "\n",
      ListFragment("href=\"link.md\"")
    ]) == [
      "\n",
      ListFragment("href=\"/link.html\"")
    ]
  {
    LineBreakKept();
    ListFragmentRewritten();
  }

  /**
   * `extractNav` is not idempotent: on its own output a second call drops the
   * line break, the first kept fragment, although it is no title.
   */
  lemma ExtractNavTwiceDropsLineBreak()
    ensures ExtractNav(ExtractNav([
      "<h1>Table of contents</h1>",
      "\n",
      ListFragment("href=\"link.md\"")
    ])) == [ListFragment("href=\"/link.html\"")]
  {
    ExtractNavVector();
    ReapplyStripsOnlyHead([
      "<h1>Table of contents</h1>",
      "\n",
      ListFragment("href=\"link.md\"")
    ]);
  }
}
