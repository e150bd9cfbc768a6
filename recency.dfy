/**
 * The recency extractor (`extractLastModifiedFromCommitsHistory`): the
 * hosting API lists commits newest first, so the last modification is the
 * date of the first record in the `commit.author.date` shape. Position is
 * trusted; dates are never compared or parsed. Records of another shape are
 * skipped, and a history without any dated record gives `None`.
 */
module Recency {
  import opened Wrappers
  import opened CommitRecords

  function ExtractLastModified(h: seq<CommitRecord>): (r: Option<LastModified>)
    ensures r.Some? <==> exists i :: 0 <= i < |h| && HasDate(h[i])
    ensures r.Some? ==>
      exists i :: 0 <= i < |h| && HasDate(h[i]) && r.value.raw == h[i].date.value
        && forall j :: 0 <= j < i ==> !HasDate(h[j])
    decreases |h|
  {
    if |h| == 0 then None
    else if HasDate(h[0]) then Some(LastModified(h[0].date.value))
    else
      var rest := ExtractLastModified(h[1..]);
      assert forall i :: 0 < i < |h| ==> h[i] == h[1..][i - 1];
      rest
  }

  /** Records without a date in front of the history do not change the result. */
  lemma {:induction false} UndatedPrefixSkipped(u: seq<CommitRecord>, h: seq<CommitRecord>)
    requires forall i :: 0 <= i < |u| ==> !HasDate(u[i])
    ensures ExtractLastModified(u + h) == ExtractLastModified(h)
    decreases |u|
  {
    if |u| == 0 {
      assert u + h == h;
    } else {
      assert (u + h)[0] == u[0];
      assert (u + h)[1..] == u[1..] + h;
      UndatedPrefixSkipped(u[1..], h);
    }
  }

  /** Whatever follows the first dated record, its date is the result. */
  lemma NewestDatedRecordWins(rec: CommitRecord, h: seq<CommitRecord>)
    requires HasDate(rec)
    ensures ExtractLastModified([rec] + h) == Some(LastModified(rec.date.value))
  {
  }
}
