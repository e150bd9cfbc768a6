/**
 * The shapes of a commit history returned by the hosting API, and the two
 * values derived from it. A record either has the recognised shape
 * (`author.avatar_url` next to `commit.author` with name, email and possibly
 * a date), or some other shape (such as `author.commit`), which every reducer
 * skips.
 */
module CommitRecords {
  import opened Wrappers

  datatype CommitRecord =
    | Recognised(avatarUrl: Option<string>, name: string, email: string, date: Option<string>)
    | Unrecognised

  /** One contributor: the avatar that identifies them and a display string. */
  datatype Committer = Committer(avatarUrl: Option<string>, display: string)

  /** The modification time, kept as the unparsed date string. */
  datatype LastModified = LastModified(raw: string)

  /** The separator between name and email in a committer's display string. */
  const DisplaySeparator: string := " | "

  /**
   * The committer a recognised record describes: the avatar URL is copied, and
   * the display string is the name, the separator and the email, in that order.
   */
  function ToCommitter(rec: CommitRecord): (c: Committer)
    requires rec.Recognised?
    ensures c.avatarUrl == rec.avatarUrl
    ensures |c.display| == |rec.name| + |DisplaySeparator| + |rec.email|
    ensures c.display[..|rec.name|] == rec.name
    ensures c.display[|rec.name|..|rec.name| + |DisplaySeparator|] == DisplaySeparator
    ensures c.display[|rec.name| + |DisplaySeparator|..] == rec.email
  {
    Committer(rec.avatarUrl, rec.name + DisplaySeparator + rec.email)
  }

  /** The record carries a modification date in the `commit.author.date` shape. */
  predicate HasDate(rec: CommitRecord) {
    rec.Recognised? && rec.date.Some?
  }
}
