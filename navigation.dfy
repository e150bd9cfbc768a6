/**
 * The navigation transformer (`extractNav`): the rendered table of contents
 * arrives as its sequence of top-level HTML fragments. The first fragment
 * (the document's title heading) is dropped, and in every other fragment the
 * markdown link targets are rewritten to published page paths. Fragments
 * keep their order.
 */
module Navigation {
  import opened SequenceHead
  import opened Links

  function ExtractNav(fragments: seq<string>): (nav: seq<string>)
    ensures |nav| == |RemoveFirstTitle(fragments)|
    ensures forall i :: 0 <= i < |nav| ==> nav[i] == RewriteLinks(fragments[i + 1])
  {
    var kept := RemoveFirstTitle(fragments);
    seq(|kept|, i requires 0 <= i < |kept| => RewriteLinks(kept[i]))
  }

  /** A kept fragment without links, such as a line break, is passed through as it is. */
  lemma PlainFragmentKept(fragments: seq<string>, i: int)
    requires 1 <= i < |fragments| && !ContainsHref(fragments[i])
    ensures ExtractNav(fragments)[i - 1] == fragments[i]
  {
    NoLinkUnchanged(fragments[i]);
  }

  /**
   * Applying the transformer to its own output removes one more fragment and
   * rewrites nothing: the title is stripped once per call, and published
   * targets are not rewritten again.
   */
  lemma ReapplyStripsOnlyHead(fragments: seq<string>)
    ensures ExtractNav(ExtractNav(fragments)) == RemoveFirstTitle(ExtractNav(fragments))
  {
    var nav := ExtractNav(fragments);
    forall i | 0 <= i < |nav| - 1
      ensures ExtractNav(nav)[i] == nav[i + 1]
    {
      RewriteIdempotent(fragments[i + 2]);
    }
  }
}
