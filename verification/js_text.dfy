/**
 * The three JavaScript string operations the public_id extraction is built
 * on: `String.prototype.indexOf`, `String.prototype.includes` and
 * `String.prototype.slice`, with the index conventions of ECMAScript
 * (section 22.1.3 of ECMA-262): `indexOf` answers -1 when there is no
 * occurrence, and `slice` counts a negative index back from the end, clamps
 * to the string and treats an absent end as the length.
 * JavaScript strings are sequences of UTF-16 code units; here they are
 * sequences of `char`, which agree with them on text without characters
 * outside the Basic Multilingual Plane.
 */
module JsText {
  import opened Maybe

  /** `pat` occurs in `s` starting at position `i`. */
  predicate OccursAt(s: string, pat: string, i: int) {
    0 <= i && i + |pat| <= |s| && s[i..i + |pat|] == pat
  }

  /** The first position at or after `from` where `pat` occurs, or -1. */
  function IndexFrom(s: string, pat: string, from: nat): (r: int)
    ensures r == -1 || (from <= r && OccursAt(s, pat, r))
    ensures r == -1 ==> forall j :: from <= j ==> !OccursAt(s, pat, j)
    ensures r != -1 ==> forall j :: from <= j < r ==> !OccursAt(s, pat, j)
    decreases |s| - from
  {
    if from + |pat| > |s| then -1
    else if s[from..from + |pat|] == pat then from
    else IndexFrom(s, pat, from + 1)
  }

  /** `s.indexOf(pat)`: the first occurrence of `pat` in `s`, or -1 when there is none. */
  function IndexOf(s: string, pat: string): (r: int)
    ensures r == -1 || OccursAt(s, pat, r)
    ensures r == -1 <==> forall j :: !OccursAt(s, pat, j)
    ensures forall j :: 0 <= j < r ==> !OccursAt(s, pat, j)
  {
    IndexFrom(s, pat, 0)
  }

  /** `s.includes(pat)`: `pat` occurs somewhere in `s`. */
  predicate Includes(s: string, pat: string): (b: bool)
    ensures b <==> exists j :: OccursAt(s, pat, j)
  {
    IndexOf(s, pat) != -1
  }

  /** An occurrence at `k` with none before it is the one `indexOf` reports. */
  lemma IndexOfIs(s: string, pat: string, k: int)
    requires OccursAt(s, pat, k)
    requires forall j :: 0 <= j < k ==> !OccursAt(s, pat, j)
    ensures IndexOf(s, pat) == k
  {
  }

  /** An occurrence anywhere means `includes` holds. */
  lemma IncludesWhenOccurs(s: string, pat: string, k: int)
    requires OccursAt(s, pat, k)
    ensures Includes(s, pat)
    ensures 0 <= IndexOf(s, pat) <= k
  {
  }

  /** `Includes` fails exactly when there is no occurrence at any position. */
  lemma NotIncludes(s: string, pat: string, k: int)
    requires !Includes(s, pat)
    ensures !OccursAt(s, pat, k)
  {
  }

  /**
   * The position a relative index stands for in a string of length `len`:
   * a negative index counts back from the end, and the result is clamped to
   * `0..len`.
   */
  function RelativeIndex(rel: int, len: nat): (k: nat)
    ensures k <= len
    ensures 0 <= rel ==> k == if rel <= len then rel else len
    ensures rel < 0 ==> k == if -rel <= len then len + rel else 0
  {
    if rel < 0 then
      if len + rel < 0 then 0 else len + rel
    else if rel < len then rel else len
  }

  /** Where `slice` starts reading. */
  function SliceFrom(s: string, start: int): nat {
    RelativeIndex(start, |s|)
  }

  /** Where `slice` stops reading; an absent end stands for the length. */
  function SliceTo(s: string, end: Option<int>): nat {
    match end
    case None => |s|
    case Some(e) => RelativeIndex(e, |s|)
  }

  /**
   * `s.slice(start, end)`: the characters from the normalised start up to,
   * not including, the normalised end; empty when the end is not after the
   * start.
   */
  function Slice(s: string, start: int, end: Option<int>): (r: string)
    ensures |r| <= |s|
    ensures |r| == if SliceFrom(s, start) < SliceTo(s, end)
                   then SliceTo(s, end) - SliceFrom(s, start) else 0
    ensures forall k :: 0 <= k < |r| ==> r[k] == s[SliceFrom(s, start) + k]
  {
    var from, to := SliceFrom(s, start), SliceTo(s, end);
    if from < to then s[from..to] else []
  }

  /** Every slice is a contiguous run of the string it was cut from. */
  lemma SliceIsSubstring(s: string, start: int, end: Option<int>)
    ensures var r := Slice(s, start, end);
            var from := SliceFrom(s, start);
            from + |r| <= |s| && r == s[from..from + |r|]
  {
    var r := Slice(s, start, end);
    var from := SliceFrom(s, start);
    assert forall k :: 0 <= k < |r| ==> r[k] == s[from..from + |r|][k];
  }

  /** When the normalised end is not after the normalised start, the slice is empty. */
  lemma SliceEmptyWhenEndNotAfterStart(s: string, start: int, end: Option<int>)
    requires SliceTo(s, end) <= SliceFrom(s, start)
    ensures Slice(s, start, end) == []
  {
  }
}
