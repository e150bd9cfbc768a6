/**
 * The sequence head stripper (`removeFirstTitle`): drops the leading title
 * block of a list of rendered fragments. It is generic in the element type
 * and never fails, also not on an empty list.
 */
module SequenceHead {

  /** The input without its first element; the empty sequence stays empty. */
  function RemoveFirstTitle<T>(s: seq<T>): (r: seq<T>)
    ensures |r| == if |s| == 0 then 0 else |s| - 1
    ensures forall i :: 0 <= i < |r| ==> r[i] == s[i + 1]
  {
    if |s| == 0 then [] else s[1..]
  }

  /** Putting the removed head back in front gives the original sequence. */
  lemma HeadRestores<T>(s: seq<T>)
    requires |s| > 0
    ensures [s[0]] + RemoveFirstTitle(s) == s
  {
  }
}
