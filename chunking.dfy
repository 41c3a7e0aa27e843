/**
  * Transcript chunking in `summarize_text` (src/video_summary/cli.py):
  * a transcript of at most `MAX_CHARS` characters is one chunk; a longer one is
  * cut into consecutive `MAX_CHARS`-character slices, the last possibly shorter.
  */
module Chunking {
  import opened PyStr

  /** `MAX_CHARS` in `summarize_text`. */
  const MaxChars: nat := 8000

  function Min(a: int, b: int): int {
    if a <= b then a else b
  }

  /** `ceil(n / m)` for a positive `m`. */
  function CeilDiv(n: nat, m: nat): nat
    requires m > 0
  {
    (n + m - 1) / m
  }

  lemma CeilDivStep(x: nat, m: nat)
    requires m > 0
    ensures 0 < x <= m ==> CeilDiv(x, m) == 1
    ensures x > m ==> CeilDiv(x, m) == 1 + CeilDiv(x - m, m)
  {
    var a := x - 1;
    if 0 < x <= m {
      assert 0 <= a < m;
      assert (a + m) / m == 1;
    } else if x > m {
      var b := x - m + m - 1;
      assert x + m - 1 == b + m;
      DivPlusOne(b, m);
    }
  }

  lemma DivPlusOne(b: nat, m: nat)
    requires m > 0
    ensures (b + m) / m == b / m + 1
  {
    var q, r := b / m, b % m;
    var q', r' := (b + m) / m, (b + m) % m;
    assert (q' - q - 1) * m == r - r' by {
      assert b == q * m + r;
      assert b + m == q' * m + r';
      assert (q' - q - 1) * m == q' * m - q * m - m;
    }
    SmallMultiple(q' - q - 1, m);
  }

  lemma SmallMultiple(k: int, m: nat)
    requires m > 0 && -(m as int) < k * m < m
    ensures k == 0
  {
    MulMonotone(k, m);
  }

  lemma MulMonotone(k: int, m: nat)
    ensures k >= 1 ==> k * m >= m
    ensures k <= -1 ==> k * m <= -(m as int)
  {
    if k >= 1 {
      assert k * m == m + (k - 1) * m;
    } else if k <= -1 {
      assert k * m == -(m as int) - (-k - 1) * m;
    }
  }

  /**
    * `[text[i:i+m] for i in range(start, len(text), m)]`: Python's slice stops
    * at the end of the string, so the last slice may be shorter than `m`.
    */
  function SlicesFrom(text: string, m: nat, start: nat): (r: seq<string>)
    requires m > 0
    ensures forall i :: 0 <= i < |r| ==> 0 < |r[i]| <= m
    ensures r == [] <==> start >= |text|
    decreases |text| - start
  {
    if start >= |text| then []
    else [text[start..Min(start + m, |text|)]] + SlicesFrom(text, m, start + m)
  }

  /** The slices put back together give exactly the text they were cut from. */
  lemma {:induction false} SlicesConcat(text: string, m: nat, start: nat)
    requires m > 0 && start <= |text|
    ensures Concat(SlicesFrom(text, m, start)) == text[start..]
    decreases |text| - start
  {
    if start < |text| {
      var end := Min(start + m, |text|);
      var r := SlicesFrom(text, m, start);
      assert r[1..] == SlicesFrom(text, m, start + m);
      if start + m < |text| {
        SlicesConcat(text, m, start + m);
      } else {
        assert SlicesFrom(text, m, start + m) == [];
      }
      assert text[start..] == text[start..end] + text[end..];
    }
  }

  /** `len(range(start, len(text), m))` slices: `ceil((len(text) - start) / m)`. */
  lemma {:induction false} SlicesCount(text: string, m: nat, start: nat)
    requires m > 0
    ensures |SlicesFrom(text, m, start)| == if start >= |text| then 0 else CeilDiv(|text| - start, m)
    decreases |text| - start
  {
    if start < |text| {
      SlicesCount(text, m, start + m);
      CeilDivStep(|text| - start, m);
    }
  }

  lemma MulStep(i: nat, m: nat)
    requires i > 0
    ensures i * m == m + (i - 1) * m
    ensures (i + 1) * m == m + i * m
  {
  }

  /** Slice `i` is `text[start + i*m : start + (i+1)*m]`, clipped at the end of the text. */
  lemma {:induction false} SliceAt(text: string, m: nat, start: nat, i: nat)
    requires m > 0 && i < |SlicesFrom(text, m, start)|
    ensures start + i * m < |text|
    ensures SlicesFrom(text, m, start)[i] == text[start + i * m..Min(start + (i + 1) * m, |text|)]
    decreases |text| - start
  {
    var r := SlicesFrom(text, m, start);
    assert start < |text|;
    if i == 0 {
      assert r[0] == text[start..Min(start + m, |text|)];
    } else {
      var rest := SlicesFrom(text, m, start + m);
      assert r[i] == rest[i - 1];
      SliceAt(text, m, start + m, i - 1);
      MulStep(i, m);
    }
  }

  /** Every slice but the last is `m` long; the last is between 1 and `m` long. */
  lemma SliceSizes(text: string, m: nat, start: nat)
    requires m > 0
    ensures var r := SlicesFrom(text, m, start);
      && (forall i :: 0 <= i < |r| - 1 ==> |r[i]| == m)
      && (r != [] ==> 0 < |r[|r| - 1]| <= m)
  {
    var r := SlicesFrom(text, m, start);
    SlicesCount(text, m, start);
    forall i | 0 <= i < |r| - 1
      ensures |r[i]| == m
    {
      SliceAt(text, m, start, i);
      SliceAt(text, m, start, i + 1);
      assert start + (i + 1) * m < |text|;
    }
    if r != [] {
      SliceAt(text, m, start, |r| - 1);
    }
  }

  /**
    * The chunk list of `summarize_text`: `[text]` when the text fits in one
    * chunk (so the empty transcript is one empty chunk), the slices otherwise.
    */
  function Chunks(text: string): (r: seq<string>)
    ensures Concat(r) == text
    ensures |r| == if |text| <= MaxChars then 1 else CeilDiv(|text|, MaxChars)
    ensures |text| <= MaxChars ==> r == [text]
    ensures forall i :: 0 <= i < |r| - 1 ==> |r[i]| == MaxChars
    ensures |text| > 0 ==> 0 < |r[|r| - 1]| <= MaxChars
  {
    if |text| <= MaxChars then
      assert Concat([text]) == text + Concat([]);
      [text]
    else
      SlicesConcat(text, MaxChars, 0);
      SlicesCount(text, MaxChars, 0);
      SliceSizes(text, MaxChars, 0);
      SlicesFrom(text, MaxChars, 0)
  }

  /**
    * The `[text]` short cut only matters for the empty transcript: a non-empty
    * text that fits is already a single slice, while the empty text has none.
    */
  lemma ShortCutOnlyForEmpty(text: string)
    requires |text| <= MaxChars
    ensures text != [] ==> SlicesFrom(text, MaxChars, 0) == Chunks(text)
    ensures text == [] ==> SlicesFrom(text, MaxChars, 0) == [] != Chunks(text)
  {
    if text != [] {
      assert SlicesFrom(text, MaxChars, MaxChars) == [];
      assert text[0..Min(MaxChars, |text|)] == text;
    }
  }
}
