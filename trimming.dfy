/**
  * `_trim_to_char_limit` in src/video_summary/cli.py: cut a summary that is
  * longer than the character limit, preferring a word boundary, and mark the
  * cut with an ellipsis.
  */
module Trimming {
  import opened PyStr

  /** The characters `rstrip(". ")` removes before the ellipsis is appended. */
  const DotSpace: set<char> := {'.', ' '}

  /** `s[:limit].rstrip()`: the part of the text the trimmer works on. */
  function Window(s: string, limit: nat): (w: string)
    requires limit < |s|
    ensures w <= s[..limit]
    ensures w == [] || !IsSpace(w[|w| - 1])
    ensures forall i :: |w| <= i < limit ==> IsSpace(s[i])
  {
    RStrip(s[..limit])
  }

  /**
    * `last_space > limit * 0.6`, computed on integers: the space at index `k`
    * keeps more than 60% of the limit, in exact arithmetic.
    */
  function PastSixtyPercent(k: int, limit: nat): (b: bool)
    ensures b <==> k as real > limit as real * 0.6
  {
    5 * k > 3 * limit
  }

  /**
    * The text kept in front of the ellipsis: the window, cut back to its last
    * space when that space lies past 60% of the limit, with trailing dots and
    * spaces removed. Only dots and spaces are dropped between the kept text and
    * the cut.
    */
  function Cut(s: string, limit: nat): (p: string)
    requires limit < |s|
    ensures p <= s[..limit]
    ensures p == [] || p[|p| - 1] !in DotSpace
    ensures var w := Window(s, limit); var k := RFind(w, ' ');
      if PastSixtyPercent(k, limit) then
        p <= w[..k] && forall i :: |p| <= i < k ==> w[i] in DotSpace
      else
        p <= w && forall i :: |p| <= i < |w| ==> w[i] in DotSpace
  {
    var w := Window(s, limit);
    var k := RFind(w, ' ');
    var t := if PastSixtyPercent(k, limit) then w[..k] else w;
    RStripChars(t, DotSpace)
  }

  /**
    * `_trim_to_char_limit(s, limit)`: unchanged when it fits; otherwise a
    * prefix of the first `limit` characters followed by `"..."`, so the
    * result may be up to three characters longer than `limit`.
    */
  function TrimToCharLimit(s: string, limit: nat): (r: string)
    ensures |s| <= limit ==> r == s
    ensures |r| <= limit + 3
    ensures |s| > limit ==>
      && |r| >= 3 && r[|r| - 3..] == "..."
      && r[..|r| - 3] <= s[..limit]
      && (r[..|r| - 3] == [] || r[|r| - 4] !in DotSpace)
    ensures |s| > limit ==> r == Cut(s, limit) + "..."
  {
    if |s| <= limit then s
    else
      var p := Cut(s, limit);
      assert (p + "...")[..|p|] == p;
      p + "..."
  }

  /**
    * When the window has a space past 60% of the limit, the cut falls at or
    * before the window's last space: the word running into the limit is
    * dropped whole, never kept in part.
    */
  lemma CutAtWordBoundary(s: string, limit: nat, j: nat)
    requires limit < |s|
    requires j < |Window(s, limit)| && Window(s, limit)[j] == ' '
    requires PastSixtyPercent(j, limit)
    ensures var w := Window(s, limit); var k := RFind(w, ' ');
      && j <= k && w[k] == ' '
      && (forall i :: k < i < |w| ==> w[i] != ' ')
      && |Cut(s, limit)| <= k
      && |TrimToCharLimit(s, limit)| <= k + 3
  {
  }

  /**
    * Without such a space the whole window is kept, less trailing dots and
    * spaces.
    */
  lemma CutKeepsWindow(s: string, limit: nat)
    requires limit < |s|
    requires forall j :: 0 <= j < |Window(s, limit)| && PastSixtyPercent(j, limit) ==> Window(s, limit)[j] != ' '
    ensures Cut(s, limit) <= Window(s, limit)
    ensures forall i :: |Cut(s, limit)| <= i < |Window(s, limit)| ==> Window(s, limit)[i] in DotSpace
  {
    var w := Window(s, limit);
    var k := RFind(w, ' ');
    assert !PastSixtyPercent(k, limit);
  }

  /**
    * The ellipsis is not counted against the limit: a text whose first `limit`
    * characters hold no whitespace and no dot comes back exactly `limit + 3`
    * characters long.
    */
  lemma TrimOverrunIsTight(s: string, limit: nat)
    requires limit < |s|
    requires forall i :: 0 <= i < limit ==> !IsSpace(s[i]) && s[i] != '.'
    ensures TrimToCharLimit(s, limit) == s[..limit] + "..."
    ensures |TrimToCharLimit(s, limit)| == limit + 3
  {
    var x := s[..limit];
    var w := Window(s, limit);
    assert w == x;
    var k := RFind(w, ' ');
    assert k == -1;
    assert RStripChars(w, DotSpace) == w;
  }
}
