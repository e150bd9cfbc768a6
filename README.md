# Page metadata enrichment: committers, last modification and navigation

This project models the pure core of the `html.pre.js` enrichment step of a
documentation site. Before a markdown page is rendered, that step adds
metadata to it:

- the list of people who committed to the page;
- the date of its last modification;
- a navigation tree taken from the repository's `SUMMARY.md` table of
  contents.

The commit history comes from the hosting API, newest commit first. The
table of contents arrives already rendered, as a sequence of top-level HTML
fragments.

The module `src/html.pre.js` is not part of this model. Its behaviour is
rebuilt from the assertions of its unit tests in `test/test.html.pre.js`,
and generalised to all inputs as follows:

- `SequenceHead.RemoveFirstTitle` (`removeFirstTitle`) drops the first
  element of any sequence. An empty sequence stays empty.
- `CommitRecords` gives the two shapes a commit record can have.
  - `Recognised` is the `author.avatar_url` + `commit.author.{name, email, date}` shape.
    The avatar URL and the date may be missing.
  - `Unrecognised` is any other shape, such as `author.commit`.
  - Both reducers match on this variant instead of probing optional fields.
- `Committers.ExtractCommitters` (`extractCommittersFromCommitsHistory`)
  walks the history in order. It keeps one committer per avatar URL, and the
  first record seen for an avatar wins. The display string is
  `name + " | " + email`.
- `Recency.ExtractLastModified` (`extractLastModifiedFromCommitsHistory`)
  returns the unparsed date string of the first record in the
  `commit.author.date` shape. Position is trusted and dates are never
  compared. When no record qualifies, the result is `None`.
- `Links.RewriteLinks` rewrites every `href="…"` attribute of a fragment
  whose target is a relative markdown file (`link.md`). The new target is
  the root-relative published page (`/link.html`). Everything else is copied
  unchanged.
- `Navigation.ExtractNav` (`extractNav`) drops the title fragment and
  rewrites the links of every other fragment, keeping their order.
- `HtmlPreTests` states each `deepEqual`/`equal` assertion of the tests as a
  lemma about the model.

## Model

| member | source | states |
|---|---|---|
| SequenceHead.RemoveFirstTitle | test/test.html.pre.js:36-47 | the result is one element shorter than a non-empty input and empty for an empty one, and its element `i` is the input's element `i+1` (the first element is dropped, the rest keep their order) |
| SequenceHead.HeadRestores | test/test.html.pre.js:43-47 | putting the removed first element back in front of the result gives the input again |
| HtmlPreTests.RemoveFirstTitleOfEmpty | test/test.html.pre.js:37-41 | an empty list of children gives an empty list |
| HtmlPreTests.RemoveFirstTitleDropsFirstChild | test/test.html.pre.js:43-47 | `['a','b','c']` gives `['b','c']` |
| CommitRecords.ToCommitter | test/test.html.pre.js:67-105 | the committer's avatar URL is the record's `author.avatar_url`; its display string is the record's `commit.author` name, then the display separator, then the email, and nothing else |
| Committers.ExtractCommitters | test/test.html.pre.js:66-106 | at most one committer per record; no two committers share an avatar URL; the avatar URLs listed are exactly those of the history's recognised records |
| Committers.FirstSeenWins | test/test.html.pre.js:87-105 | the committer listed for an avatar is built from the first record with that avatar: its avatar URL, and its name and email joined by the display separator, even when later records with that avatar have a different name or email |
| Committers.FirstAppearanceOrder | test/test.html.pre.js:99-105 | committers are listed in the order in which their avatars first appear in the history |
| Committers.FirstOccurrence | test/test.html.pre.js:66-106 | every avatar URL of the history's recognised records has a first record that carries it |
| Committers.CommitterOrigin | test/test.html.pre.js:66-106 | every listed committer is built from the first record of its avatar, so nothing appears that the history does not contribute |
| HtmlPreTests.ExtractCommittersVector | test/test.html.pre.js:67-105 | the three-commit history gives the committer `a1_url` displayed as `a1` and `a1_email`, then `a2_url` displayed as `a2` and `a2_email` (joined by the display separator), and the later `a2_different` commit is dropped |
| Recency.ExtractLastModified | test/test.html.pre.js:109-128 | a result exists exactly when some record has a `commit.author.date`; the result is then the unmodified date string of the first such record, with no dated record before it |
| Recency.UndatedPrefixSkipped | test/test.html.pre.js:118-125 | records without that shape (such as `author.commit`) in front of the history do not change the result |
| Recency.NewestDatedRecordWins | test/test.html.pre.js:111-127 | a dated record at the head of the history gives its date, whatever follows it |
| HtmlPreTests.ExtractLastModifiedVector | test/test.html.pre.js:111-127 | `raw` is `'01 Jan 2018 00:01:00 GMT'` for the two-record test history, whatever the first record's missing avatar URL and email are |
| Links.PublishedTarget | test/test.html.pre.js:148-153 | the published target is never itself a markdown target; it adds no quote; a target that is not a relative markdown file is kept unchanged |
| Links.PublishedTargetIdempotent | test/test.html.pre.js:148-153 | publishing a target twice is the same as publishing it once |
| Links.SourceOfPublished | test/test.html.pre.js:148-153 | the markdown file is recovered from its published path (`/link.html` back to `link.md`) |
| Links.RewriteLinks | test/test.html.pre.js:148-153 | the rewrite of a fragment keeps its first character, and has a quote exactly when the fragment has one; with LinkRewritten, OneLinkRewritten, NoLinkUnchanged and RewriteIdempotent it rewrites each link in place, passes fragments without links through and is idempotent |
| Links.LinkRewritten | test/test.html.pre.js:148-153 | an `href="target"` attribute is replaced by `href="published target"` as a whole, and the scan resumes after its closing quote |
| Links.OneLinkRewritten | test/test.html.pre.js:148-153 | in a fragment whose text before and after one link attribute contains no other `href="`, only that target changes and the HTML text around it is kept |
| Links.HrefPrefixCopied | test/test.html.pre.js:148-153 | text without any `href="` in front of a link attribute is copied unchanged; no attribute is taken to start inside it |
| Links.NoLinkUnchanged | test/test.html.pre.js:147-153 | a fragment without any `href="` is passed through unchanged |
| Links.RewriteIdempotent | test/test.html.pre.js:148-153 | rewriting the links of a fragment twice is the same as rewriting them once |
| Navigation.ExtractNav | test/test.html.pre.js:142-154 | the output has one element fewer than a non-empty input; its element `i` is input fragment `i+1` with its links rewritten |
| Navigation.PlainFragmentKept | test/test.html.pre.js:147-153 | a kept fragment without links, such as the `'\n'` between blocks, is output exactly as it was |
| Navigation.ReapplyStripsOnlyHead | test/test.html.pre.js:144-153 | applying `extractNav` to its own output rewrites nothing, but drops its first fragment whatever it is: the function is not idempotent |
| HtmlPreTests.SourceListIsTestString | test/test.html.pre.js:148 | the list fragment used in the navigation vectors is the test's input string, character for character |
| HtmlPreTests.PublishedListIsTestString | test/test.html.pre.js:153 | the rewritten list fragment is the test's expected string, character for character |
| HtmlPreTests.ListFragmentRewritten | test/test.html.pre.js:148-153 | the rendered list keeps all its text, and only `href="link.md"` becomes `href="/link.html"` |
| HtmlPreTests.LineBreakKept | test/test.html.pre.js:147-153 | the `'\n'` fragment is rewritten to itself |
| HtmlPreTests.ExtractNavVector | test/test.html.pre.js:143-154 | the three test fragments give `['\n', <list with href="/link.html">]` |
| HtmlPreTests.ExtractNavTwiceDropsLineBreak | test/test.html.pre.js:143-154 | applied again to the test's output, `extractNav` drops the `'\n'` fragment and keeps only the rewritten list |

## Left out

- `fetchCommitsHistory` (test/test.html.pre.js:50-63) is left out. It is one HTTP GET of the hosting API's commit list that returns the JSON body. The network and JSON decoding are not modelled, and the decoded history is the input of the reducers.
- `fetchNavPayload` (test/test.html.pre.js:131-140) is left out. It fetches `SUMMARY.md` and renders it with an external markdown renderer. The model starts from the rendered fragment sequence.
- The `pre` export checks (test/test.html.pre.js:26-34) are left out. They check module wiring and carry no behaviour.
- The logger parameter (test/test.html.pre.js:17-24) is left out. Every logger method is a no-op, so no operation takes one.
- Dates are opaque strings. Parsing them, and any field derived from a parsed date, is not modelled. Only `raw` is asserted.
- `src/html.pre.js` is not part of this model. Its unit tests fix its behaviour only on the tested vectors. The model's choices on untested inputs come from the design of the step, not from its code.
  - Records in another shape are skipped by both reducers.
  - A history without a dated record gives `None`.
  - Records without an avatar URL share one key, as `undefined` values compare equal.
- Links.RewriteLinks recognises only the exact attribute text `href="…"`. It does not handle single-quoted or unquoted attribute values or spaces around `=`, and it does not tell attributes from the same text in element content. An `href="` without a closing quote is copied as text.
- Links.PublishedTarget rewrites a target only when it ends in `.md`, contains no `:` (no scheme) and does not start with `/`. Fragments, queries and other extensions are left as they are. Only the `link.md` case is fixed by the tests.
- `extractNav` is not idempotent. A second call on its own output drops the first kept fragment, whatever it is, because `removeFirstTitle` drops the first element unconditionally (test/test.html.pre.js:43-47). No rule that drops the title fragment only once is modelled.
- A recognised record always carries a name and an email. A `commit.author` without one of them, which JavaScript would display as `undefined`, cannot be represented.
