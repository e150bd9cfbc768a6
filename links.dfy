/**
 * Link rewriting inside one rendered navigation fragment. Every attribute
 * `href="<target>"` is scanned; a relative target naming a markdown file
 * (`link.md`) is replaced by the root-relative path of the published page
 * (`/link.html`). Other targets, the attribute text itself and everything
 * outside attributes are copied unchanged; an `href="` with no closing quote
 * after it is plain text.
 */
module Links {

  const HrefOpen: string := "href=\""
  const Quote: char := '"'
  const MarkdownExtension: string := ".md"
  const PageExtension: string := ".html"

  /** A target with no scheme (no `:`) that is not already root- or host-relative. */
  predicate IsRelative(t: string) {
    ':' !in t && !(|t| > 0 && t[0] == '/')
  }

  /** A relative target naming a markdown source file. */
  predicate IsMarkdownTarget(t: string) {
    && |t| >= |MarkdownExtension|
    && t[|t| - |MarkdownExtension|..] == MarkdownExtension
    && IsRelative(t)
  }

  /** The published target of a link target: `x.md` becomes `/x.html`, anything else is kept. */
  function PublishedTarget(t: string): (u: string)
    ensures !IsMarkdownTarget(u)
    ensures Quote !in t ==> Quote !in u
    ensures !IsMarkdownTarget(t) ==> u == t
  {
    if IsMarkdownTarget(t) then "/" + t[..|t| - |MarkdownExtension|] + PageExtension else t
  }

  /** The markdown source a published page path comes from; the inverse of PublishedTarget. */
  function SourceTarget(u: string): string {
    if |u| > |PageExtension| && u[0] == '/' && u[|u| - |PageExtension|..] == PageExtension
    then u[1..|u| - |PageExtension|] + MarkdownExtension
    else u
  }

  /** Rewriting a target a second time changes nothing. */
  lemma PublishedTargetIdempotent(t: string)
    ensures PublishedTarget(PublishedTarget(t)) == PublishedTarget(t)
  {
  }

  /** A markdown target is recovered from its published path. */
  lemma SourceOfPublished(t: string)
    requires IsMarkdownTarget(t)
    ensures SourceTarget(PublishedTarget(t)) == t
  {
    var stem := t[..|t| - |MarkdownExtension|];
    var u := PublishedTarget(t);
    assert u == "/" + stem + PageExtension;
    assert u[|u| - |PageExtension|..] == PageExtension;
    assert u[1..|u| - |PageExtension|] == stem;
    assert stem + MarkdownExtension == t;
  }

  /** An attribute `href="` starts here and a closing quote follows it. */
  predicate LinkAt(s: string) {
    HrefOpen <= s && Quote in s[|HrefOpen|..]
  }

  /** The position of the first quote. */
  function QuoteIndex(s: string): (k: nat)
    requires Quote in s
    ensures k < |s| && s[k] == Quote && Quote !in s[..k]
  {
    if s[0] == Quote then 0
    else
      assert Quote in s[1..] by { var j :| 0 <= j < |s| && s[j] == Quote; assert s[1..][j - 1] == Quote; }
      var k := QuoteIndex(s[1..]);
      assert s[..k + 1] == [s[0]] + s[1..][..k];
      k + 1
  }

  /**
   * The fragment with every markdown link target replaced by its published
   * target. The text keeps its first character, and every attribute keeps its
   * quotes, so the rewrite has a quote exactly when the fragment has one.
   */
  function RewriteLinks(s: string): (r: string)
    ensures |s| > 0 ==> |r| > 0 && r[0] == s[0]
    ensures Quote in r <==> Quote in s
    decreases |s|
  {
    if |s| == 0 then []
    else if LinkAt(s) then
      var rest := s[|HrefOpen|..];
      var k := QuoteIndex(rest);
      var r := HrefOpen + PublishedTarget(rest[..k]) + [Quote] + RewriteLinks(rest[k + 1..]);
      assert s[|HrefOpen| - 1] == Quote && r[|HrefOpen| - 1] == Quote;
      r
    else
      var r := [s[0]] + RewriteLinks(s[1..]);
      assert s == [s[0]] + s[1..];
      r
  }

  /** The text contains the opening of an `href` attribute somewhere. */
  predicate ContainsHref(s: string) {
    exists i :: 0 <= i < |s| && HrefOpen <= s[i..]
  }

  /** A fragment without links, such as a line break between blocks, passes through unchanged. */
  lemma {:induction false} NoLinkUnchanged(s: string)
    requires !ContainsHref(s)
    ensures RewriteLinks(s) == s
    decreases |s|
  {
    if |s| > 0 {
      assert s[0..] == s;
      NoHrefInTail(s);
      NoLinkUnchanged(s[1..]);
    }
  }

  /** Text without the letter `h` cannot start an attribute and is copied as it is. */
  lemma {:induction false} PlainPrefixCopied(p: string, z: string)
    requires 'h' !in p
    ensures RewriteLinks(p + z) == p + RewriteLinks(z)
    decreases |p|
  {
    if |p| == 0 {
      assert p + z == z;
    } else {
      assert (p + z)[0] == p[0] != HrefOpen[0];
      assert 'h' !in p[1..];
      PlainPrefixCopied(p[1..], z);
      PrefixStep(p, z);
    }
  }

  /** A prefix without the letter `h` of a rewritten text was already a prefix of the original. */
  lemma {:induction false} PlainPrefixReflected(p: string, y: string)
    requires 'h' !in p
    requires p <= RewriteLinks(y)
    ensures p <= y
    decreases |p|
  {
    if |p| > 0 {
      assert RewriteLinks(y)[0] == p[0];
      assert |y| > 0 && y[0] == p[0];
      assert RewriteLinks(y) == [y[0]] + RewriteLinks(y[1..]);
      assert p[1..] <= RewriteLinks(y[1..]);
      PlainPrefixReflected(p[1..], y[1..]);
    }
  }

  /** The first quote of a quote-free target followed by a quote is right after the target. */
  lemma QuoteAfter(t: string, x: string)
    requires Quote !in t
    ensures QuoteIndex(t + [Quote] + x) == |t|
  {
    var s := t + [Quote] + x;
    var k := QuoteIndex(s);
    assert s[|t|] == Quote;
    assert forall j :: 0 <= j < |t| ==> s[j] == t[j];
    assert forall j :: 0 <= j < k ==> s[..k][j] == s[j];
  }

  /** An attribute with a quote-free target is rewritten as a whole and the scan resumes after it. */
  lemma LinkRewritten(t: string, x: string)
    requires Quote !in t
    ensures RewriteLinks(HrefOpen + t + [Quote] + x) == HrefOpen + PublishedTarget(t) + [Quote] + RewriteLinks(x)
  {
    var s := HrefOpen + t + [Quote] + x;
    var rest := s[|HrefOpen|..];
    assert rest == t + [Quote] + x;
    QuoteAfter(t, x);
    assert rest[|t|] == Quote;
    assert LinkAt(s);
    assert rest[..|t|] == t;
    assert rest[|t| + 1..] == x;
  }

  /** A fragment whose only link is one attribute has just that target rewritten. */
  lemma OneLinkRewritten(before: string, target: string, after: string)
    requires !ContainsHref(before) && !ContainsHref(after) && Quote !in target
    ensures RewriteLinks(before + (HrefOpen + target + [Quote] + after))
      == before + (HrefOpen + PublishedTarget(target) + [Quote] + after)
  {
    HrefPrefixCopied(before, HrefOpen + target + [Quote] + after);
    LinkTailCopied(target, after);
  }

  /** An attribute with a quote-free target followed by text without links has only the target rewritten. */
  lemma LinkTailCopied(target: string, after: string)
    requires !ContainsHref(after) && Quote !in target
    ensures RewriteLinks(HrefOpen + target + [Quote] + after) == HrefOpen + PublishedTarget(target) + [Quote] + after
  {
    LinkRewritten(target, after);
    NoLinkUnchanged(after);
  }

  /** The tail of a text without links has no links either. */
  lemma NoHrefInTail(s: string)
    requires |s| > 0 && !ContainsHref(s)
    ensures !ContainsHref(s[1..])
  {
    forall i | 0 <= i < |s[1..]|
      ensures !(HrefOpen <= s[1..][i..])
    {
      assert s[1..][i..] == s[i + 1..];
    }
  }

  /** Text without the letter `h` has no links. */
  lemma NoLetterNoHref(s: string)
    requires 'h' !in s
    ensures !ContainsHref(s)
  {
    forall i | 0 <= i < |s|
      ensures !(HrefOpen <= s[i..])
    {
      assert HrefOpen[0] == 'h';
    }
  }

  /**
   * No attribute starts in front of an attribute when the text before it has
   * no links, not even one running on into the attribute.
   */
  lemma NoLinkBeforeHref(p: string, z: string)
    requires |p| > 0 && !ContainsHref(p) && HrefOpen <= z
    ensures !LinkAt(p + z)
  {
    var s := p + z;
    assert s[|p|] == z[0] == 'h';
    if |p| >= |HrefOpen| {
      assert p[0..] == p;
      assert s[..|HrefOpen|] == p[..|HrefOpen|];
    }
  }

  /** Text without links in front of an attribute is copied as it is. */
  lemma {:induction false} HrefPrefixCopied(p: string, z: string)
    requires !ContainsHref(p) && HrefOpen <= z
    ensures RewriteLinks(p + z) == p + RewriteLinks(z)
    decreases |p|
  {
    if |p| == 0 {
      assert p + z == z;
    } else {
      NoHrefInTail(p);
      HrefPrefixCopied(p[1..], z);
      NoLinkBeforeHref(p, z);
      PrefixStep(p, z);
    }
  }

  /** One step of HrefPrefixCopied: where no attribute starts, the first character is copied. */
  lemma PrefixStep(p: string, z: string)
    requires |p| > 0 && !LinkAt(p + z)
    requires RewriteLinks(p[1..] + z) == p[1..] + RewriteLinks(z)
    ensures RewriteLinks(p + z) == p + RewriteLinks(z)
  {
    var s := p + z;
    var r := RewriteLinks(z);
    assert s[1..] == p[1..] + z;
    assert RewriteLinks(s) == [s[0]] + (p[1..] + r);
    assert [p[0]] + (p[1..] + r) == p + r by {
      assert p == [p[0]] + p[1..];
    }
  }

  /** A character put in front of a rewritten text starts a link only if it did so before. */
  lemma LinkAfterCharReflected(c: char, y: string)
    ensures LinkAt([c] + RewriteLinks(y)) ==> LinkAt([c] + y)
  {
    var x := [c] + RewriteLinks(y);
    if LinkAt(x) {
      var tail := HrefOpen[1..];
      assert tail == "ref=\"";
      assert HrefOpen[0] == 'h' && x[0] == c;
      assert tail <= RewriteLinks(y) by {
        assert x[1..] == RewriteLinks(y);
      }
      PlainPrefixReflected(tail, y);
      var z := y[|tail|..];
      assert y == tail + z;
      PlainPrefixCopied(tail, z);
      assert x[|HrefOpen|..] == RewriteLinks(z);
      assert [c] + y == HrefOpen + z;
      assert ([c] + y)[|HrefOpen|..] == z;
    }
  }

  /** Rewriting the links of a fragment twice is the same as rewriting them once. */
  lemma {:induction false} RewriteIdempotent(s: string)
    ensures RewriteLinks(RewriteLinks(s)) == RewriteLinks(s)
    decreases |s|
  {
    if |s| == 0 {
    } else if LinkAt(s) {
      var rest := s[|HrefOpen|..];
      var k := QuoteIndex(rest);
      var t := rest[..k];
      var tail := rest[k + 1..];
      assert s == HrefOpen + t + [Quote] + tail;
      LinkRewritten(t, tail);
      LinkRewritten(PublishedTarget(t), RewriteLinks(tail));
      RewriteIdempotent(tail);
    } else {
      CharCopied(s);
      RewriteIdempotent(s[1..]);
    }
  }

  /** Where no link starts, the first character is copied both in the first and the second pass. */
  lemma CharCopied(s: string)
    requires |s| > 0 && !LinkAt(s)
    ensures RewriteLinks(RewriteLinks(s)) == [s[0]] + RewriteLinks(RewriteLinks(s[1..]))
  {
    FirstPassCopiesChar(s);
    SecondPassFindsNoLink(s);
    CharStep(s[0], RewriteLinks(s[1..]));
  }

  lemma FirstPassCopiesChar(s: string)
    requires |s| > 0 && !LinkAt(s)
    ensures RewriteLinks(s) == [s[0]] + RewriteLinks(s[1..])
  {
  }

  lemma SecondPassFindsNoLink(s: string)
    requires |s| > 0 && !LinkAt(s)
    ensures !LinkAt([s[0]] + RewriteLinks(s[1..]))
  {
    LinkAfterCharReflected(s[0], s[1..]);
    assert s == [s[0]] + s[1..];
  }

  /** A character that does not start a link is copied and the scan goes on with the rest. */
  lemma CharStep(c: char, y: string)
    requires !LinkAt([c] + y)
    ensures RewriteLinks([c] + y) == [c] + RewriteLinks(y)
  {
    var s := [c] + y;
    assert s[0] == c;
    assert s[1..] == y;
  }
}
