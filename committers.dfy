/**
 * The committee reducer (`extractCommittersFromCommitsHistory`): walks the
 * commit history in its given order (newest first) and keeps one committer
 * per avatar URL. The first record seen for an avatar wins; later records
 * with the same avatar are discarded even when their name or email differ.
 */
module Committers {
  import opened Wrappers
  import opened CommitRecords

  /** The avatar URLs that occur in a list of committers. */
  function KeysOf(cs: seq<Committer>): set<Option<string>> {
    set c | c in cs :: c.avatarUrl
  }

  /** The avatar URLs of the recognised records of a history. */
  function HistoryKeys(h: seq<CommitRecord>): set<Option<string>> {
    set rec | rec in h && rec.Recognised? :: rec.avatarUrl
  }

  lemma KeysOfAppend(cs: seq<Committer>, c: Committer)
    ensures KeysOf(cs + [c]) == KeysOf(cs) + {c.avatarUrl}
  {
    assert forall x :: x in cs + [c] <==> x in cs || x == c;
  }

  lemma HistoryKeysAppend(h: seq<CommitRecord>, rec: CommitRecord)
    ensures HistoryKeys(h + [rec]) == HistoryKeys(h) + (if rec.Recognised? then {rec.avatarUrl} else {})
  {
    assert forall x :: x in h + [rec] <==> x in h || x == rec;
  }

  /** The avatar URL of each listed committer is one of those listed. */
  lemma KeyListed(cs: seq<Committer>, a: int)
    ensures 0 <= a < |cs| ==> cs[a].avatarUrl in KeysOf(cs)
  {
    if 0 <= a < |cs| {
      assert cs[a] in cs;
    }
  }

  /** The avatar URL of each recognised record is one of the history's keys. */
  lemma KeyInHistory(h: seq<CommitRecord>, i: int)
    ensures 0 <= i < |h| && h[i].Recognised? ==> h[i].avatarUrl in HistoryKeys(h)
  {
    if 0 <= i < |h| {
      assert h[i] in h;
    }
  }

  /** No two committers share an avatar URL. */
  predicate DistinctKeys(cs: seq<Committer>) {
    forall a, b :: 0 <= a < b < |cs| ==> cs[a].avatarUrl != cs[b].avatarUrl
  }

  /** Record `i` is recognised and no recognised record before it has its avatar URL. */
  predicate FirstSeen(h: seq<CommitRecord>, i: int) {
    && 0 <= i < |h|
    && h[i].Recognised?
    && forall j :: 0 <= j < i && h[j].Recognised? ==> h[j].avatarUrl != h[i].avatarUrl
  }

  /**
   * The committers of a history: the history is consumed in order, and a
   * recognised record whose avatar URL is not yet among the committers
   * collected so far is appended.
   */
  function ExtractCommitters(h: seq<CommitRecord>): (r: seq<Committer>)
    ensures |r| <= |h|
    ensures DistinctKeys(r)
    ensures KeysOf(r) == HistoryKeys(h)
    decreases |h|
  {
    if |h| == 0 then []
    else
      var prev := ExtractCommitters(h[..|h| - 1]);
      var rec := h[|h| - 1];
      assert h == h[..|h| - 1] + [rec];
      HistoryKeysAppend(h[..|h| - 1], rec);
      if rec.Recognised? && rec.avatarUrl !in KeysOf(prev) then
        KeysOfAppend(prev, ToCommitter(rec));
        prev + [ToCommitter(rec)]
      else prev
  }

  /**
   * First seen wins: the committer listed for the avatar of a first-seen
   * record is exactly that record's avatar URL and `name | email`.
   */
  lemma {:induction false} FirstSeenWins(h: seq<CommitRecord>, i: int, a: int)
    requires FirstSeen(h, i)
    requires 0 <= a < |ExtractCommitters(h)|
    requires ExtractCommitters(h)[a].avatarUrl == h[i].avatarUrl
    ensures ExtractCommitters(h)[a] == ToCommitter(h[i])
    decreases |h|
  {
    var n := |h| - 1;
    var init := h[..n];
    var prev := ExtractCommitters(init);
    assert h == init + [h[n]];
    KeyListed(prev, a);
    KeyInHistory(init, i);
    if i == n {
      NotYetSeen(h, i);
    } else {
      assert FirstSeen(init, i);
      if a < |prev| {
        FirstSeenWins(init, i, a);
      }
    }
  }

  /**
   * Order of first appearance: the committers of two first-seen records are
   * listed in the order in which those records occur in the history.
   */
  lemma {:induction false} FirstAppearanceOrder(h: seq<CommitRecord>, i: int, j: int, a: int, b: int)
    requires FirstSeen(h, i) && FirstSeen(h, j) && i < j
    requires 0 <= a < |ExtractCommitters(h)| && 0 <= b < |ExtractCommitters(h)|
    requires ExtractCommitters(h)[a].avatarUrl == h[i].avatarUrl
    requires ExtractCommitters(h)[b].avatarUrl == h[j].avatarUrl
    ensures a < b
    decreases |h|
  {
    var n := |h| - 1;
    var init := h[..n];
    var prev := ExtractCommitters(init);
    assert h == init + [h[n]];
    assert FirstSeen(init, i);
    KeyInHistory(init, i);
    KeyListed(prev, a);
    if j < n {
      assert FirstSeen(init, j);
      KeyInHistory(init, j);
      KeyListed(prev, b);
      FirstAppearanceOrder(init, i, j, a, b);
    } else {
      NotYetSeen(h, j);
    }
  }

  /** The avatar URL of a first-seen record is not a key of the history before it. */
  lemma NotYetSeen(h: seq<CommitRecord>, i: int)
    requires FirstSeen(h, i)
    ensures h[i].avatarUrl !in HistoryKeys(h[..i])
  {
    forall rec | rec in h[..i] && rec.Recognised?
      ensures rec.avatarUrl != h[i].avatarUrl
    {
      var k :| 0 <= k < i && h[..i][k] == rec;
      assert h[k] == rec;
    }
  }

  /** Every key of a history is the avatar URL of some first-seen record. */
  lemma {:induction false} FirstOccurrence(h: seq<CommitRecord>, k: Option<string>)
    requires k in HistoryKeys(h)
    ensures exists i :: FirstSeen(h, i) && h[i].avatarUrl == k
    decreases |h|
  {
    var n := |h| - 1;
    var init := h[..n];
    assert h == init + [h[n]];
    HistoryKeysAppend(init, h[n]);
    if k in HistoryKeys(init) {
      FirstOccurrence(init, k);
      var i :| FirstSeen(init, i) && init[i].avatarUrl == k;
      assert FirstSeen(h, i);
    } else {
      forall j | 0 <= j < n && h[j].Recognised?
        ensures h[j].avatarUrl != k
      {
        KeyInHistory(init, j);
      }
      assert FirstSeen(h, n);
    }
  }

  /**
   * Every listed committer is the committer of a first-seen record: nothing
   * is listed that the history does not contribute in this way.
   */
  lemma CommitterOrigin(h: seq<CommitRecord>, a: int)
    requires 0 <= a < |ExtractCommitters(h)|
    ensures exists i :: FirstSeen(h, i) && ExtractCommitters(h)[a] == ToCommitter(h[i])
  {
    var r := ExtractCommitters(h);
    KeyListed(r, a);
    FirstOccurrence(h, r[a].avatarUrl);
    var i :| FirstSeen(h, i) && h[i].avatarUrl == r[a].avatarUrl;
    FirstSeenWins(h, i, a);
  }
}
