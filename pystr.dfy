/**
  * The pieces of Python's `str` behaviour that the CLI relies on:
  * `strip`/`rstrip`, `lower`, `isdigit`, `int(...)` on digit strings,
  * `rfind`, `"sep".join(...)` and decimal rendering in f-strings.
  * Strings are `seq<char>`; digits and case are ASCII only.
  */
module PyStr {

  /** Python's `str.isspace` for one character (the set `strip()` removes). */
  predicate IsSpace(c: char) {
    || c == ' '
    || '\t' <= c <= '\r'
    || '\U{1C}' <= c <= '\U{1F}'
    || c == '\U{85}' || c == '\U{A0}' || c == '\U{1680}'
    || '\U{2000}' <= c <= '\U{200A}'
    || c == '\U{2028}' || c == '\U{2029}' || c == '\U{202F}' || c == '\U{205F}' || c == '\U{3000}'
  }

  /** Every character is whitespace (true of the empty string). */
  predicate AllSpace(s: string) {
    forall i :: 0 <= i < |s| ==> IsSpace(s[i])
  }

  /** No whitespace at either end: what `strip()` leaves. */
  predicate Trimmed(s: string) {
    s == [] || (!IsSpace(s[0]) && !IsSpace(s[|s| - 1]))
  }

  /** `s.rstrip()`: drops trailing whitespace. */
  function RStrip(s: string): (r: string)
    ensures r <= s
    ensures r == [] || !IsSpace(r[|r| - 1])
    ensures forall i :: |r| <= i < |s| ==> IsSpace(s[i])
  {
    if s != [] && IsSpace(s[|s| - 1]) then RStrip(s[..|s| - 1]) else s
  }

  /** `s.lstrip()`: drops leading whitespace. */
  function LStrip(s: string): (r: string)
    ensures |r| <= |s| && r == s[|s| - |r|..]
    ensures r == [] || !IsSpace(r[0])
    ensures forall i :: 0 <= i < |s| - |r| ==> IsSpace(s[i])
  {
    if s != [] && IsSpace(s[0]) then LStrip(s[1..]) else s
  }

  /** `s.strip()`. */
  function Strip(s: string): string {
    RStrip(LStrip(s))
  }

  /** `s` is whitespace, then `core` starting at index `k`, then whitespace. */
  predicate PaddedAt(s: string, core: string, k: int) {
    && 0 <= k && k + |core| <= |s|
    && s == s[..k] + core + s[k + |core|..]
    && AllSpace(s[..k]) && AllSpace(s[k + |core|..])
  }

  /** `core` is `s` with some whitespace removed from either end. */
  predicate Padded(s: string, core: string) {
    exists k | 0 <= k <= |s| :: PaddedAt(s, core, k)
  }

  /**
    * `strip()` cuts `s` into leading whitespace, the result and trailing
    * whitespace; the result neither starts nor ends with whitespace.
    */
  lemma StripTrims(s: string)
    ensures PaddedAt(s, Strip(s), |s| - |LStrip(s)|)
    ensures Trimmed(Strip(s))
  {
    StripShape(s, LStrip(s), RStrip(LStrip(s)));
  }

  /** `strip()` is no longer than its input, and empty exactly when the input is all whitespace. */
  lemma StripBlank(s: string)
    ensures |Strip(s)| <= |s| && Trimmed(Strip(s))
    ensures Strip(s) == [] <==> AllSpace(s)
  {
    StripTrims(s);
    PaddedCore(s, |s| - |LStrip(s)|, Strip(s));
  }

  lemma PaddedCore(s: string, k: nat, core: string)
    requires PaddedAt(s, core, k) && Trimmed(core)
    ensures |core| <= |s|
    ensures core == [] <==> AllSpace(s)
  {
    if core == [] {
      assert s == s[..k] + s[k..];
      assert forall i :: 0 <= i < |s| ==> (i < k ==> s[i] == s[..k][i]) && (k <= i ==> s[k..][i - k] == s[i]);
    } else {
      assert s[k] == core[0];
    }
  }

  /** What the contracts of `lstrip` and then `rstrip` make of `s`. */
  lemma StripShape(s: string, l: string, r: string)
    requires |l| <= |s| && l == s[|s| - |l|..]
    requires l == [] || !IsSpace(l[0])
    requires forall i :: 0 <= i < |s| - |l| ==> IsSpace(s[i])
    requires r <= l
    requires r == [] || !IsSpace(r[|r| - 1])
    requires forall i :: |r| <= i < |l| ==> IsSpace(l[i])
    ensures PaddedAt(s, r, |s| - |l|) && Trimmed(r)
  {
    SuffixSplit(s, l);
    PrefixSplit(l, r);
    TrimmedPrefix(l, r);
    PaddingSplit(s, l, r);
  }

  /** Leading padding, then trailing padding, cut off: the pieces line up. */
  lemma PaddingSplit(s: string, l: string, r: string)
    requires |l| <= |s| && s == s[..|s| - |l|] + l && AllSpace(s[..|s| - |l|])
    requires |r| <= |l| && l == r + l[|r|..] && AllSpace(l[|r|..])
    ensures PaddedAt(s, r, |s| - |l|)
  {
    var k := |s| - |l|;
    assert s[k + |r|..] == l[|r|..];
  }

  /** A prefix of a string that does not start with whitespace, ending in no whitespace, is trimmed. */
  lemma TrimmedPrefix(l: string, r: string)
    requires l == [] || !IsSpace(l[0])
    requires r <= l && (r == [] || !IsSpace(r[|r| - 1]))
    ensures Trimmed(r)
  {
    if r != [] {
      assert r[0] == l[0];
    }
  }

  /** A suffix after whitespace: `s` is that whitespace followed by the suffix. */
  lemma SuffixSplit(s: string, l: string)
    requires |l| <= |s| && l == s[|s| - |l|..]
    requires forall i :: 0 <= i < |s| - |l| ==> IsSpace(s[i])
    ensures s == s[..|s| - |l|] + l && AllSpace(s[..|s| - |l|])
  {
    var a := s[..|s| - |l|];
    assert forall i :: 0 <= i < |a| ==> a[i] == s[i];
  }

  /** A prefix before whitespace: `l` is the prefix followed by that whitespace. */
  lemma PrefixSplit(l: string, r: string)
    requires r <= l
    requires forall i :: |r| <= i < |l| ==> IsSpace(l[i])
    ensures l == r + l[|r|..] && AllSpace(l[|r|..])
  {
    var b := l[|r|..];
    assert forall i :: 0 <= i < |b| ==> b[i] == l[|r| + i];
  }

  /** `s.rstrip(chars)`: drops trailing characters that belong to `chars`. */
  function RStripChars(s: string, chars: set<char>): (r: string)
    ensures r <= s
    ensures r == [] || r[|r| - 1] !in chars
    ensures forall i :: |r| <= i < |s| ==> s[i] in chars
  {
    if s != [] && s[|s| - 1] in chars then RStripChars(s[..|s| - 1], chars) else s
  }

  /** Leading whitespace is all that `lstrip` removes. */
  lemma {:induction false} LStripSkips(left: string, x: string)
    requires AllSpace(left)
    ensures LStrip(left + x) == LStrip(x)
    decreases |left|
  {
    if left == [] {
      assert left + x == x;
    } else {
      assert (left + x)[0] == left[0];
      assert (left + x)[1..] == left[1..] + x;
      LStripSkips(left[1..], x);
    }
  }

  /** Trailing whitespace is all that `rstrip` removes. */
  lemma {:induction false} RStripSkips(x: string, right: string)
    requires AllSpace(right)
    ensures RStrip(x + right) == RStrip(x)
    decreases |right|
  {
    if right == [] {
      assert x + right == x;
    } else {
      assert (x + right)[|x + right| - 1] == right[|right| - 1];
      assert (x + right)[..|x + right| - 1] == x + right[..|right| - 1];
      RStripSkips(x, right[..|right| - 1]);
    }
  }

  /** Stripping a string padded with whitespace on both sides gives back the core. */
  lemma StripPadded(left: string, core: string, right: string)
    requires AllSpace(left) && AllSpace(right)
    requires core != [] && Trimmed(core)
    ensures Strip(left + core + right) == core
  {
    assert left + core + right == left + (core + right);
    LStripSkips(left, core + right);
    assert (core + right)[0] == core[0];
    RStripSkips(core, right);
  }

  /** A string of whitespace only strips to the empty string. */
  lemma AllSpaceStripsToEmpty(s: string)
    requires AllSpace(s)
    ensures Strip(s) == []
  {
    LStripSkips(s, []);
    assert s + [] == s;
  }

  /** `c.lower()` for ASCII letters; every other character is left as it is. */
  function LowerChar(c: char): char {
    if 'A' <= c <= 'Z' then (c as int - 'A' as int + 'a' as int) as char else c
  }

  /** No ASCII upper-case letter: what `lower()` leaves. */
  predicate NoUpper(s: string) {
    forall i :: 0 <= i < |s| ==> !('A' <= s[i] <= 'Z')
  }

  /** `s.lower()`. */
  function Lower(s: string): string {
    seq(|s|, i requires 0 <= i < |s| => LowerChar(s[i]))
  }

  /**
    * `lower()` on ASCII: no upper-case letter is left, each upper-case letter
    * becomes its lower-case form, and nothing else changes.
    */
  lemma LowerAscii(s: string)
    ensures var r := Lower(s);
      && |r| == |s|
      && NoUpper(r)
      && (forall i :: 0 <= i < |s| && 'A' <= s[i] <= 'Z' ==> r[i] as int == s[i] as int + 32)
      && (forall i :: 0 <= i < |s| && !('A' <= s[i] <= 'Z') ==> r[i] == s[i])
  {
  }

  predicate IsDigit(c: char) {
    '0' <= c <= '9'
  }

  /** Every character is an ASCII digit (true of the empty string). */
  predicate AllDigits(s: string) {
    forall i :: 0 <= i < |s| ==> IsDigit(s[i])
  }

  /** `s.isdigit()`: non-empty and all digits. */
  predicate IsDigits(s: string) {
    s != [] && AllDigits(s)
  }

  function DigitValue(c: char): nat
    requires IsDigit(c)
  {
    c as int - '0' as int
  }

  /**
    * `int(s)` for a string of ASCII digits, read most significant digit
    * first; it is zero exactly when every digit is `'0'`.
    */
  function DigitsValue(s: string): (r: nat)
    requires AllDigits(s)
    ensures r == 0 <==> forall i :: 0 <= i < |s| ==> s[i] == '0'
  {
    if s == [] then 0
    else
      var front := s[..|s| - 1];
      assert forall i :: 0 <= i < |front| ==> front[i] == s[i];
      10 * DigitsValue(front) + DigitValue(s[|s| - 1])
  }

  function DigitChar(d: nat): (c: char)
    requires d < 10
    ensures IsDigit(c) && DigitValue(c) == d
  {
    ('0' as int + d) as char
  }

  /** `str(n)` / `f"{n}"` for a non-negative integer: no leading zeros. */
  function Decimal(n: nat): (r: string)
    ensures IsDigits(r)
    ensures DigitsValue(r) == n
    ensures n > 0 ==> r[0] != '0'
    ensures n < 10 <==> |r| == 1
  {
    if n < 10 then [DigitChar(n)]
    else
      var r := Decimal(n / 10) + [DigitChar(n % 10)];
      assert r[..|r| - 1] == Decimal(n / 10);
      r
  }

  /** `k` copies of `'0'`. */
  function Zeros(k: nat): (r: string)
    ensures |r| == k && AllDigits(r)
  {
    seq(k, _ => '0')
  }

  /** Leading zeros do not change the value `int()` reads. */
  lemma {:induction false} LeadingZeros(k: nat, d: string)
    requires AllDigits(d)
    ensures DigitsValue(Zeros(k) + d) == DigitsValue(d)
    decreases |d|
  {
    var s := Zeros(k) + d;
    if d == [] {
      assert s == Zeros(k);
    } else {
      assert s[..|s| - 1] == Zeros(k) + d[..|d| - 1];
      LeadingZeros(k, d[..|d| - 1]);
    }
  }

  /**
    * A digit string is its value in decimal behind leading zeros: the only
    * strings `int()` reads as `n > 0` are `"0"*k + str(n)`.
    */
  lemma {:induction false} DigitsCanonical(d: string)
    requires AllDigits(d) && DigitsValue(d) > 0
    ensures |Decimal(DigitsValue(d))| <= |d|
    ensures d == Zeros(|d| - |Decimal(DigitsValue(d))|) + Decimal(DigitsValue(d))
    decreases |d|
  {
    var front := d[..|d| - 1];
    if DigitsValue(front) == 0 {
      CanonicalAfterZeros(d);
    } else {
      DigitsCanonical(front);
      CanonicalExtend(d);
    }
  }

  /** Zeros followed by one non-zero digit: the digit is the whole numeral. */
  lemma CanonicalAfterZeros(d: string)
    requires AllDigits(d) && DigitsValue(d) > 0 && DigitsValue(d[..|d| - 1]) == 0
    ensures |Decimal(DigitsValue(d))| <= |d|
    ensures d == Zeros(|d| - |Decimal(DigitsValue(d))|) + Decimal(DigitsValue(d))
  {
    var n := DigitsValue(d);
    var front, last := d[..|d| - 1], d[|d| - 1];
    assert d == front + [last];
    assert n == DigitValue(last);
    ZeroValueIsZeros(front);
    assert Decimal(n) == [last];
    AppendDigit(front, last, |front|, []);
  }

  /** One more digit after a canonical numeral behind zeros keeps that shape. */
  lemma CanonicalExtend(d: string)
    requires AllDigits(d) && d != []
    requires var v := DigitsValue(d[..|d| - 1]);
      && v > 0 && |Decimal(v)| <= |d| - 1
      && d[..|d| - 1] == Zeros(|d| - 1 - |Decimal(v)|) + Decimal(v)
    ensures |Decimal(DigitsValue(d))| <= |d|
    ensures d == Zeros(|d| - |Decimal(DigitsValue(d))|) + Decimal(DigitsValue(d))
  {
    var front, last := d[..|d| - 1], d[|d| - 1];
    assert d == front + [last];
    var v := DigitsValue(front);
    assert DigitsValue(d) == 10 * v + DigitValue(last);
    DecimalStep(v, last);
    AppendDigit(front, last, |front| - |Decimal(v)|, Decimal(v));
  }

  /** A digit appended after zeros and a numeral extends the numeral. */
  lemma AppendDigit(front: string, last: char, z: nat, numeral: string)
    requires front == Zeros(z) + numeral
    ensures front + [last] == Zeros(z) + (numeral + [last])
  {
  }

  /** Appending a digit to a positive numeral gives the numeral of ten times it plus that digit. */
  lemma DecimalStep(v: nat, c: char)
    requires v > 0 && IsDigit(c)
    ensures Decimal(10 * v + DigitValue(c)) == Decimal(v) + [c]
  {
    var n := 10 * v + DigitValue(c);
    assert n / 10 == v && n % 10 == DigitValue(c);
    assert DigitChar(n % 10) == c;
  }

  /** A digit string reads as zero exactly when it is `'0'` repeated. */
  lemma ZeroValueIsZeros(d: string)
    requires AllDigits(d)
    ensures DigitsValue(d) == 0 <==> d == Zeros(|d|)
  {
    if DigitsValue(d) == 0 {
      assert forall i :: 0 <= i < |d| ==> d[i] == Zeros(|d|)[i];
    }
  }

  /**
    * `s.rfind(c)`: the index of the last occurrence of `c`, or -1.
    */
  function RFind(s: string, c: char): (r: int)
    ensures -1 <= r < |s|
    ensures r >= 0 ==> s[r] == c
    ensures forall j :: r < j < |s| ==> s[j] != c
  {
    if s == [] then -1
    else if s[|s| - 1] == c then |s| - 1
    else RFind(s[..|s| - 1], c)
  }

  /** `sub` starts at index `i` of `s`. */
  predicate OccursAt(s: string, sub: string, i: int) {
    0 <= i <= |s| - |sub| && s[i..i + |sub|] == sub
  }

  /** `s.endswith(suffix)`. */
  predicate EndsWith(s: string, suffix: string) {
    |suffix| <= |s| && s[|s| - |suffix|..] == suffix
  }

  /** `s.endswith(c)` for a single character `c` tests the last character. */
  lemma EndsWithChar(s: string, c: char)
    requires s != []
    ensures EndsWith(s, [c]) <==> s[|s| - 1] == c
  {
    assert s[|s| - 1..] == [s[|s| - 1]];
  }

  /** `sub in s`: `sub` occurs somewhere in `s`. */
  predicate Contains(s: string, sub: string) {
    exists i | 0 <= i <= |s| :: OccursAt(s, sub, i)
  }

  lemma ContainsMiddle(a: string, sub: string, b: string)
    ensures Contains(a + sub + b, sub)
  {
    assert (a + sub + b)[|a|..|a| + |sub|] == sub;
    assert OccursAt(a + sub + b, sub, |a|);
  }

  lemma ContainsPrefix(s: string, sub: string, tail: string)
    requires Contains(s, sub)
    ensures Contains(s + tail, sub)
  {
    var i :| 0 <= i <= |s| && OccursAt(s, sub, i);
    assert 0 <= i <= |s| - |sub| && s[i..i + |sub|] == sub;
    assert (s + tail)[i..i + |sub|] == sub;
    assert OccursAt(s + tail, sub, i);
  }

  /** The total number of characters in `parts`. */
  function TotalLength(parts: seq<string>): nat {
    if parts == [] then 0 else |parts[0]| + TotalLength(parts[1..])
  }

  /** `"".join(parts)`: the parts back to back, in order. */
  function Concat(parts: seq<string>): (r: string)
    ensures |r| == TotalLength(parts)
  {
    if parts == [] then [] else parts[0] + Concat(parts[1..])
  }

  /**
    * `sep.join(parts)`: the parts in order with one separator between
    * neighbours, so `k` parts take their own length plus `k - 1` separators.
    */
  function Join(sep: string, parts: seq<string>): (r: string)
    ensures parts == [] ==> r == []
    ensures parts != [] ==> |r| == TotalLength(parts) + (|parts| - 1) * |sep| && parts[0] <= r
  {
    if parts == [] then []
    else if |parts| == 1 then
      assert TotalLength(parts) == |parts[0]| + TotalLength([]);
      parts[0]
    else
      var rest := Join(sep, parts[1..]);
      assert (|parts| - 1) * |sep| == |sep| + (|parts| - 2) * |sep|;
      parts[0] + sep + rest
  }

  /** A part joined on at the end follows one separator: the parts stay in order. */
  lemma {:induction false} JoinAppend(sep: string, parts: seq<string>, p: string)
    requires parts != []
    ensures Join(sep, parts + [p]) == Join(sep, parts) + sep + p
    decreases |parts|
  {
    var all := parts + [p];
    assert all[0] == parts[0];
    if |parts| == 1 {
      assert all[1..] == [p];
    } else {
      assert all[1..] == parts[1..] + [p];
      JoinAppend(sep, parts[1..], p);
      var rest := Join(sep, parts[1..]);
      assert parts[0] + sep + (rest + sep + p) == (parts[0] + sep + rest) + sep + p;
    }
  }

  /** Joining with the empty separator is concatenation. */
  lemma {:induction false} JoinEmptySeparator(parts: seq<string>)
    ensures Join("", parts) == Concat(parts)
  {
    if |parts| == 1 {
      assert Concat(parts) == parts[0] + Concat([]);
    } else if |parts| > 1 {
      JoinEmptySeparator(parts[1..]);
      assert parts[0] + "" == parts[0];
    }
  }
}
