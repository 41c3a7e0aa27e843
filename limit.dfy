/**
  * The `--limit` grammar: `parse_limit` in src/video_summary/cli.py.
  * A limit is `<digits>p` (a paragraph count) or `<digits>` (a character
  * count), read after stripping surrounding whitespace and lower-casing.
  */
module Limit {
  import opened Wrappers
  import opened PyStr

  /** The `(paragraphs, char_limit)` pair that `parse_limit` returns. */
  datatype Limits = Limits(paragraphs: Option<nat>, charLimit: Option<nat>) {
    /** Exactly one side of the pair is set, and its value is positive. */
    predicate Valid() {
      && (paragraphs.Some? != charLimit.Some?)
      && (paragraphs.Some? ==> paragraphs.value > 0)
      && (charLimit.Some? ==> charLimit.value > 0)
    }

    /** The tagged-union reading of a valid pair. */
    function ToConstraint(): (c: Constraint)
      requires Valid()
      ensures c.n > 0
      ensures c.Paragraphs? <==> paragraphs.Some?
    {
      if paragraphs.Some? then Paragraphs(paragraphs.value) else CharLimit(charLimit.value)
    }
  }

  /** A summary constraint: a paragraph count or a character ceiling, never both. */
  datatype Constraint = Paragraphs(n: nat) | CharLimit(n: nat) {
    function ToLimits(): (l: Limits)
      ensures n > 0 <==> l.Valid()
      ensures l.paragraphs.Some? <==> Paragraphs?
    {
      match this
      case Paragraphs(p) => Limits(Some(p), None)
      case CharLimit(c) => Limits(None, Some(c))
    }
  }

  /** Valid pairs and constraints with a positive count are two views of one thing. */
  lemma ConstraintRoundTrip(l: Limits, c: Constraint)
    ensures l.Valid() ==> l.ToConstraint().ToLimits() == l
    ensures c.n > 0 ==> c.ToLimits().ToConstraint() == c
  {
  }

  /**
    * The longest digit string `int()` converts: CPython's default
    * `sys.int_info.default_max_str_digits` (Python 3.11 and later).
    */
  const MaxStrDigits: nat := 4300

  /**
    * One error per `fail(...)` call in `parse_limit`, and the `ValueError`
    * that `int()` raises on a digit string longer than `MaxStrDigits`, which
    * nothing catches, so the program stops with a traceback.
    */
  datatype LimitError =
    | EmptyLimit            // "--limit value cannot be empty"
    | BadParagraphFormat    // "Invalid paragraph limit format"
    | NonPositiveParagraphs // "Paragraph limit must be positive"
    | BadCharFormat         // "Invalid character limit format"
    | NonPositiveChars      // "Character limit must be positive"
    | DigitLimitExceeded    // `int()` refuses more than `MaxStrDigits` digits

  /** The string `parse_limit` examines: `limit_value.strip().lower()`. */
  function Normalize(raw: string): string {
    Lower(Strip(raw))
  }

  /**
    * The normalised value has no surrounding whitespace and no upper-case
    * letter, and is empty exactly when the raw value is all whitespace.
    */
  lemma NormalizeShape(raw: string)
    ensures var r := Normalize(raw);
      && |r| <= |raw|
      && Trimmed(r)
      && NoUpper(r)
      && (r == [] <==> AllSpace(raw))
  {
    var t := Strip(raw);
    StripBlank(raw);
    LowerAscii(t);
    LowerKeepsTrimmed(t, Lower(t));
  }

  /** Lower-casing a trimmed string leaves it trimmed: no letter is whitespace. */
  lemma LowerKeepsTrimmed(t: string, r: string)
    requires Trimmed(t)
    requires |r| == |t|
    requires forall i :: 0 <= i < |t| && 'A' <= t[i] <= 'Z' ==> r[i] as int == t[i] as int + 32
    requires forall i :: 0 <= i < |t| && !('A' <= t[i] <= 'Z') ==> r[i] == t[i]
    ensures Trimmed(r)
  {
  }

  /** `parse_limit`: a successful parse sets exactly one side, to a positive value. */
  function ParseLimit(raw: string): (r: Result<Limits, LimitError>)
    ensures r.Ok? ==> r.value.Valid()
  {
    ParseNormalized(Normalize(raw))
  }

  /** The body of `parse_limit` after normalisation. */
  function ParseNormalized(lv: string): (r: Result<Limits, LimitError>)
    ensures r.Ok? ==> r.value.Valid()
  {
    if lv == [] then Err(EmptyLimit)
    else if EndsWith(lv, "p") then
      var num := lv[..|lv| - 1];
      if !IsDigits(num) then Err(BadParagraphFormat)
      else if |num| > MaxStrDigits then Err(DigitLimitExceeded)
      else
        var p := DigitsValue(num);
        if p <= 0 then Err(NonPositiveParagraphs) else Ok(Limits(Some(p), None))
    else if !IsDigits(lv) then Err(BadCharFormat)
    else if |lv| > MaxStrDigits then Err(DigitLimitExceeded)
    else
      var chars := DigitsValue(lv);
      if chars <= 0 then Err(NonPositiveChars) else Ok(Limits(None, Some(chars)))
  }

  /** Lower-casing leaves digits alone. */
  lemma LowerDigits(d: string, tail: string)
    requires AllDigits(d)
    ensures Lower(d + tail) == d + Lower(tail)
  {
    assert forall i :: 0 <= i < |d| ==> (d + tail)[i] == d[i];
    assert forall i :: |d| <= i < |d| + |tail| ==> (d + tail)[i] == tail[i - |d|];
  }

  /** Normalising a whitespace-padded digit string with an optional suffix. */
  lemma NormalizePadded(left: string, digits: string, suffix: string, right: string)
    requires AllSpace(left) && AllSpace(right)
    requires IsDigits(digits) && |suffix| <= 1 && (suffix != [] ==> !IsSpace(suffix[0]))
    ensures Normalize(left + digits + suffix + right) == digits + Lower(suffix)
  {
    var core := digits + suffix;
    assert left + digits + suffix + right == left + core + right;
    assert core[0] == digits[0];
    assert core[|core| - 1] == if suffix == [] then digits[|digits| - 1] else suffix[0];
    StripPadded(left, core, right);
    LowerDigits(digits, suffix);
  }

  /**
    * The last steps of `parse_limit` on a digit string, with or without the
    * paragraph suffix: too many digits for `int()`, a zero value, or the count.
    */
  lemma ParseNormalizedDigits(d: string)
    requires IsDigits(d)
    ensures ParseNormalized(d) ==
      if |d| > MaxStrDigits then Err(DigitLimitExceeded)
      else if DigitsValue(d) == 0 then Err(NonPositiveChars)
      else Ok(Limits(None, Some(DigitsValue(d))))
    ensures ParseNormalized(d + ['p']) ==
      if |d| > MaxStrDigits then Err(DigitLimitExceeded)
      else if DigitsValue(d) == 0 then Err(NonPositiveParagraphs)
      else Ok(Limits(Some(DigitsValue(d)), None))
  {
    var lv := d + ['p'];
    EndsWithChar(lv, 'p');
    if d != [] {
      EndsWithChar(d, 'p');
    }
    assert lv[..|lv| - 1] == d;
    assert !IsDigit('p');
  }

  /** A count written with `k` leading zeros reads as the count, in both forms. */
  lemma ParseCount(k: nat, n: nat)
    requires n > 0 && k + |Decimal(n)| <= MaxStrDigits
    ensures ParseNormalized(Zeros(k) + Decimal(n)) == Ok(Limits(None, Some(n)))
    ensures ParseNormalized(Zeros(k) + Decimal(n) + ['p']) == Ok(Limits(Some(n), None))
  {
    LeadingZeros(k, Decimal(n));
    ParseNormalizedDigits(Zeros(k) + Decimal(n));
  }

  /** `parse_limit` decides on the normalised string alone. */
  lemma ParseThrough(raw: string, lv: string, r: Result<Limits, LimitError>)
    requires Normalize(raw) == lv && ParseNormalized(lv) == r
    ensures ParseLimit(raw) == r
  {
  }

  /**
    * `"<zeros><n>p"`, in either case and padded with whitespace, parses to
    * `n` paragraphs: e.g. `" 3P "` and `"002p"`.
    */
  lemma ParseParagraphsForm(left: string, k: nat, n: nat, p: char, right: string)
    requires AllSpace(left) && AllSpace(right)
    requires n > 0 && (p == 'p' || p == 'P')
    requires k + |Decimal(n)| <= MaxStrDigits
    ensures ParseLimit(left + Zeros(k) + Decimal(n) + [p] + right) == Ok(Paragraphs(n).ToLimits())
  {
    ParseCount(k, n);
    ParseSuffixedAs(left, Zeros(k), Decimal(n), p, right, Ok(Paragraphs(n).ToLimits()));
  }

  /**
    * `"<zeros><n>"` padded with whitespace parses to a limit of `n` characters.
    */
  lemma ParseCharsForm(left: string, k: nat, n: nat, right: string)
    requires AllSpace(left) && AllSpace(right)
    requires n > 0 && k + |Decimal(n)| <= MaxStrDigits
    ensures ParseLimit(left + Zeros(k) + Decimal(n) + right) == Ok(CharLimit(n).ToLimits())
  {
    ParseCount(k, n);
    ParsePaddedAs(left, Zeros(k), Decimal(n), right, Ok(CharLimit(n).ToLimits()));
  }

  /** Padded zeros and a numeral parse as the zeros and the numeral do. */
  lemma ParsePaddedAs(left: string, z: string, dn: string, right: string, r: Result<Limits, LimitError>)
    requires AllSpace(left) && AllSpace(right) && IsDigits(z + dn)
    requires ParseNormalized(z + dn) == r
    ensures ParseLimit(left + z + dn + right) == r
  {
    assert left + z + dn + right == left + (z + dn) + right;
    NormalizeDigits(left, z + dn, right);
    ParseThrough(left + (z + dn) + right, z + dn, r);
  }

  /** Padded zeros, a numeral and `p` or `P` parse as the zeros, the numeral and `p` do. */
  lemma ParseSuffixedAs(left: string, z: string, dn: string, p: char, right: string, r: Result<Limits, LimitError>)
    requires AllSpace(left) && AllSpace(right) && IsDigits(z + dn) && (p == 'p' || p == 'P')
    requires ParseNormalized(z + dn + ['p']) == r
    ensures ParseLimit(left + z + dn + [p] + right) == r
  {
    assert left + z + dn + [p] + right == left + (z + dn) + [p] + right;
    NormalizeSuffixed(left, z + dn, p, right);
    ParseThrough(left + (z + dn) + [p] + right, z + dn + ['p'], r);
  }

  lemma NormalizeSuffixed(left: string, digits: string, p: char, right: string)
    requires AllSpace(left) && AllSpace(right) && IsDigits(digits) && (p == 'p' || p == 'P')
    ensures Normalize(left + digits + [p] + right) == digits + ['p']
  {
    NormalizePadded(left, digits, [p], right);
    assert Lower([p]) == ['p'];
  }

  lemma NormalizeDigits(left: string, digits: string, right: string)
    requires AllSpace(left) && AllSpace(right) && IsDigits(digits)
    ensures Normalize(left + digits + right) == digits
  {
    assert left + digits + right == left + digits + [] + right;
    NormalizePadded(left, digits, [], right);
    assert Lower([]) == [] && digits + [] == digits;
  }

  /**
    * A count of more than `MaxStrDigits` digits, leading zeros included,
    * passes the `isdigit` test and then makes `int()` raise.
    */
  lemma ParseTooManyDigits(left: string, d: string, right: string)
    requires AllSpace(left) && AllSpace(right) && IsDigits(d) && |d| > MaxStrDigits
    ensures ParseLimit(left + d + right) == Err(DigitLimitExceeded)
    ensures ParseLimit(left + d + "p" + right) == Err(DigitLimitExceeded)
  {
    NormalizeDigits(left, d, right);
    NormalizePadded(left, d, "p", right);
    assert Lower("p") == "p";
    ParseNormalizedDigits(d);
  }

  /**
    * How a value that parses to `l` is spelled once normalised: leading zeros,
    * the canonical numeral of the count and, for paragraphs, a `p`; never
    * more digits than `int()` accepts.
    */
  predicate SpelledAs(lv: string, l: Limits) {
    && (l.paragraphs.Some? ==>
          |Decimal(l.paragraphs.value)| < |lv| <= MaxStrDigits + 1
          && lv == Zeros(|lv| - 1 - |Decimal(l.paragraphs.value)|) + Decimal(l.paragraphs.value) + ['p'])
    && (l.charLimit.Some? ==>
          |Decimal(l.charLimit.value)| <= |lv| <= MaxStrDigits
          && lv == Zeros(|lv| - |Decimal(l.charLimit.value)|) + Decimal(l.charLimit.value))
  }

  /** Conversely, every accepted `--limit` is spelled as `SpelledAs` says once stripped and lower-cased. */
  lemma ParseLimitSound(raw: string)
    requires ParseLimit(raw).Ok?
    ensures SpelledAs(Normalize(raw), ParseLimit(raw).value)
  {
    var lv := Normalize(raw);
    assert ParseLimit(raw) == ParseNormalized(lv);
    ParseNormalizedSound(lv);
  }

  /** Every value `ParseNormalized` accepts is spelled as `SpelledAs` says. */
  lemma ParseNormalizedSound(lv: string)
    requires ParseNormalized(lv).Ok?
    ensures SpelledAs(lv, ParseNormalized(lv).value)
  {
    EndsWithChar(lv, 'p');
    if lv[|lv| - 1] == 'p' {
      ParagraphsSound(lv);
    } else {
      CharsSound(lv);
    }
  }

  /** An accepted `<digits>p` is leading zeros, the canonical count, then `p`. */
  lemma ParagraphsSound(lv: string)
    requires |lv| >= 1 && lv[|lv| - 1] == 'p'
    requires IsDigits(lv[..|lv| - 1]) && |lv| - 1 <= MaxStrDigits && DigitsValue(lv[..|lv| - 1]) > 0
    ensures SpelledAs(lv, Limits(Some(DigitsValue(lv[..|lv| - 1])), None))
  {
    var num := lv[..|lv| - 1];
    DigitsCanonical(num);
    assert lv == num + ['p'];
  }

  /** An accepted `<digits>` is leading zeros followed by the canonical count. */
  lemma CharsSound(lv: string)
    requires IsDigits(lv) && |lv| <= MaxStrDigits && DigitsValue(lv) > 0
    ensures SpelledAs(lv, Limits(None, Some(DigitsValue(lv))))
  {
    DigitsCanonical(lv);
  }

  /** Empty or whitespace-only input is refused as empty. */
  lemma ParseBlank(raw: string)
    requires AllSpace(raw)
    ensures ParseLimit(raw) == Err(EmptyLimit)
  {
    AllSpaceStripsToEmpty(raw);
  }

  /** A zero value, however many zeros spell it, is refused as non-positive. */
  lemma ParseZero(left: string, k: nat, right: string)
    requires AllSpace(left) && AllSpace(right) && 0 < k <= MaxStrDigits
    ensures ParseLimit(left + Zeros(k) + right) == Err(NonPositiveChars)
    ensures ParseLimit(left + Zeros(k) + "p" + right) == Err(NonPositiveParagraphs)
  {
    var z := Zeros(k);
    assert DigitsValue(z) == 0 by { ZeroValueIsZeros(z); }
    ParseNormalizedDigits(z);
    NormalizeDigits(left, z, right);
    ParseThrough(left + z + right, z, Err(NonPositiveChars));
    NormalizeSuffixed(left, z, 'p', right);
    ParseThrough(left + z + ['p'] + right, z + ['p'], Err(NonPositiveParagraphs));
  }

  /** A string with no surrounding whitespace and no upper case is already normal. */
  lemma NormalizeIdentity(s: string)
    requires s != [] && Trimmed(s) && NoUpper(s)
    ensures Normalize(s) == s
  {
    assert "" + s + "" == s;
    StripPadded("", s, "");
  }

  /** The character-limit example of `parse_limit`'s docstring. */
  lemma ParseLimitCharExample(s1: string)
    requires s1 == "1000"
    ensures ParseLimit(s1) == Ok(CharLimit(1000).ToLimits())
  {
    assert Decimal(1000) == "1000" by {}
    assert Zeros(0) == [] by {}
    assert "" + Zeros(0) + Decimal(1000) + "" == s1;
    ParseCharsForm("", 0, 1000, "");
  }

  /** The paragraph examples of `parse_limit`'s docstring: leading zeros are allowed. */
  lemma ParseLimitParagraphExamples(s2: string, s3: string)
    requires s2 == "2p" && s3 == "002p"
    ensures ParseLimit(s2) == Ok(Paragraphs(2).ToLimits())
    ensures ParseLimit(s3) == Ok(Paragraphs(2).ToLimits())
  {
    assert ParseLimit(s2) == Ok(Paragraphs(2).ToLimits()) by {
      assert Zeros(0) == [] by {}
      assert "" + Zeros(0) + Decimal(2) + ['p'] + "" == s2;
      ParseParagraphsForm("", 0, 2, 'p', "");
    }
    assert Zeros(2) == "00" by {}
    assert "" + Zeros(2) + Decimal(2) + ['p'] + "" == s3;
    ParseParagraphsForm("", 2, 2, 'p', "");
  }

  /** Surrounding whitespace and an upper-case `P` are accepted. */
  lemma ParseLimitPaddedExample(s4: string)
    requires s4 == " 3P "
    ensures ParseLimit(s4) == Ok(Paragraphs(3).ToLimits())
  {
    assert Zeros(0) == [] by {}
    assert " " + Zeros(0) + Decimal(3) + ['P'] + " " == s4;
    ParseParagraphsForm(" ", 0, 3, 'P', " ");
  }

  /** A value that normalisation leaves alone is refused as `ParseNormalized` refuses it. */
  lemma RefusedAsWritten(s: string, e: LimitError)
    requires s != [] && Trimmed(s) && NoUpper(s)
    requires ParseNormalized(s) == Err(e)
    ensures ParseLimit(s) == Err(e)
  {
    NormalizeIdentity(s);
    ParseThrough(s, s, Err(e));
  }

  /** A trimmed lower-case value ending in `p` with a non-digit count is malformed. */
  lemma ParagraphRefused(s: string)
    requires s != [] && Trimmed(s) && NoUpper(s)
    requires s[|s| - 1] == 'p' && !IsDigits(s[..|s| - 1])
    ensures ParseLimit(s) == Err(BadParagraphFormat)
  {
    EndsWithChar(s, 'p');
    RefusedAsWritten(s, BadParagraphFormat);
  }

  /** Malformed paragraph limits: a bare `p`, a signed count, a non-digit count. */
  lemma ParseLimitParagraphRefusals(s1: string, s2: string, s3: string)
    requires s1 == "p" && s2 == "-5p" && s3 == "3xp"
    ensures ParseLimit(s1) == Err(BadParagraphFormat)
    ensures ParseLimit(s2) == Err(BadParagraphFormat)
    ensures ParseLimit(s3) == Err(BadParagraphFormat)
  {
    assert ParseLimit(s1) == Err(BadParagraphFormat) by {
      assert s1[..0] == [];
      ParagraphRefused(s1);
    }
    assert ParseLimit(s2) == Err(BadParagraphFormat) by {
      assert s2[..2][0] == '-';
      ParagraphRefused(s2);
    }
    assert s3[..2][1] == 'x';
    ParagraphRefused(s3);
  }

  /** A character limit with a non-digit in it is malformed. */
  lemma ParseLimitCharRefusal(s4: string)
    requires s4 == "3x"
    ensures ParseLimit(s4) == Err(BadCharFormat)
  {
    assert ParseNormalized(s4) == Err(BadCharFormat) by { assert !IsDigit(s4[1]); }
    RefusedAsWritten(s4, BadCharFormat);
  }

  /** A signed character limit is malformed, not negative. */
  lemma ParseLimitSignedRefusal(s5: string)
    requires s5 == "-5"
    ensures ParseLimit(s5) == Err(BadCharFormat)
  {
    assert ParseNormalized(s5) == Err(BadCharFormat) by { assert !IsDigit(s5[0]); }
    RefusedAsWritten(s5, BadCharFormat);
  }
}
