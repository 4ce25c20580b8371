/** The Foundation string operations the app relies on: trimming white space,
    `split(separator:)` and `%d` / `%02d` formatting of integers. */
module Text {

  /** Membership in `CharacterSet.whitespacesAndNewlines`: the Unicode separators
      (general categories Zs, Zl and Zp), U+0009 to U+000D, and U+0085. */
  predicate IsSpace(c: char) {
    var n := c as int;
    (0x09 <= n <= 0x0D) || n == 0x20 || n == 0x85 || n == 0xA0 || n == 0x1680 ||
    (0x2000 <= n <= 0x200A) || n == 0x2028 || n == 0x2029 || n == 0x202F ||
    n == 0x205F || n == 0x3000
  }

  predicate AllSpace(s: string) {
    forall i :: 0 <= i < |s| ==> IsSpace(s[i])
  }

  /** Index of the first character at or after `k` that is not white space, or `|s|`;
      everything before it is white space. */
  function SpanStart(s: string, k: nat): (lo: nat)
    requires k <= |s| && forall i :: 0 <= i < k ==> IsSpace(s[i])
    ensures k <= lo <= |s|
    ensures forall i :: 0 <= i < lo ==> IsSpace(s[i])
    ensures lo < |s| ==> !IsSpace(s[lo])
    decreases |s| - k
  {
    if k < |s| && IsSpace(s[k]) then SpanStart(s, k + 1) else k
  }

  /** Index just past the last character before `hi` and at or after `lo` that is not
      white space, or `lo`; everything from it on is white space. */
  function SpanEnd(s: string, lo: nat, hi: nat): (end: nat)
    requires lo <= hi <= |s| && forall i :: hi <= i < |s| ==> IsSpace(s[i])
    ensures lo <= end <= hi
    ensures forall i :: end <= i < |s| ==> IsSpace(s[i])
    ensures lo < end ==> !IsSpace(s[end - 1])
    decreases hi
  {
    if lo < hi && IsSpace(s[hi - 1]) then SpanEnd(s, lo, hi - 1) else hi
  }

  /** `trimmingCharacters(in: .whitespacesAndNewlines)`: the slice of `s` between a
      white-space prefix and a white-space suffix; it neither starts nor ends with
      white space. */
  function Trim(s: string): (r: string)
    ensures r == [] || (!IsSpace(r[0]) && !IsSpace(r[|r| - 1]))
    ensures var lo := SpanStart(s, 0); var hi := SpanEnd(s, lo, |s|);
      r == s[lo..hi] && (forall i :: 0 <= i < lo ==> IsSpace(s[i])) &&
      (forall i :: hi <= i < |s| ==> IsSpace(s[i]))
  {
    var lo := SpanStart(s, 0);
    s[lo..SpanEnd(s, lo, |s|)]
  }

  /** A string trims to nothing exactly when every character of it is white space. */
  lemma TrimEmptyIff(s: string)
    ensures Trim(s) == [] <==> AllSpace(s)
  {
    var lo := SpanStart(s, 0);
    var hi := SpanEnd(s, lo, |s|);
    if AllSpace(s) {
      assert lo == |s|;
    }
  }

  /** Trimming twice is trimming once. */
  lemma TrimIdempotent(s: string)
    ensures Trim(Trim(s)) == Trim(s)
  {
    var r := Trim(s);
    var lo := SpanStart(r, 0);
    var hi := SpanEnd(r, 0, |r|);
    assert r[0..|r|] == r;
  }

  /** Index of the first `sep` in `s`, or `|s|` when there is none. */
  function IndexOf(s: string, sep: char): (k: nat)
    ensures k <= |s| && sep !in s[..k]
    ensures k < |s| ==> s[k] == sep
  {
    if s == [] then 0
    else if s[0] == sep then 0
    else
      var k := 1 + IndexOf(s[1..], sep);
      assert s[..k] == [s[0]] + s[1..][..k - 1];
      k
  }

  /** `split(separator:)` with its defaults (no split limit, empty pieces omitted):
      the maximal runs of characters other than `sep`, in order; every piece is
      non-empty and free of `sep`. */
  function Split(s: string, sep: char): (parts: seq<string>)
    ensures forall i :: 0 <= i < |parts| ==> parts[i] != [] && sep !in parts[i]
    decreases |s|
  {
    if s == [] then []
    else if s[0] == sep then Split(s[1..], sep)
    else
      var k := IndexOf(s, sep);
      [s[..k]] + Split(s[k..], sep)
  }

  /** The characters of `s` other than `sep`, in their order. */
  function Without(s: string, sep: char): string {
    if s == [] then [] else (if s[0] == sep then [] else [s[0]]) + Without(s[1..], sep)
  }

  function Concat(parts: seq<string>): string {
    if parts == [] then [] else parts[0] + Concat(parts[1..])
  }

  lemma {:induction false} WithoutAppend(a: string, b: string, sep: char)
    ensures Without(a + b, sep) == Without(a, sep) + Without(b, sep)
    decreases |a|
  {
    if a != [] {
      assert (a + b)[1..] == a[1..] + b;
      WithoutAppend(a[1..], b, sep);
    } else {
      assert a + b == b;
    }
  }

  lemma {:induction false} WithoutAbsent(s: string, sep: char)
    requires sep !in s
    ensures Without(s, sep) == s
    decreases |s|
  {
    if s != [] {
      WithoutAbsent(s[1..], sep);
    }
  }

  /** Splitting loses only the separators: gluing the pieces back together gives
      the input with every `sep` taken out, in the original order. */
  lemma {:induction false} SplitKeepsText(s: string, sep: char)
    ensures Concat(Split(s, sep)) == Without(s, sep)
    decreases |s|
  {
    if s == [] {
    } else if s[0] == sep {
      SplitKeepsText(s[1..], sep);
    } else {
      var k := IndexOf(s, sep);
      var parts := Split(s, sep);
      assert parts == [s[..k]] + Split(s[k..], sep);
      assert parts[1..] == Split(s[k..], sep);
      SplitKeepsText(s[k..], sep);
      WithoutAbsent(s[..k], sep);
      assert s == s[..k] + s[k..];
      WithoutAppend(s[..k], s[k..], sep);
    }
  }

  /** Nothing is left after splitting exactly when the input holds only separators. */
  lemma {:induction false} SplitEmptyIff(s: string, sep: char)
    ensures Split(s, sep) == [] <==> forall i :: 0 <= i < |s| ==> s[i] == sep
    decreases |s|
  {
    if s != [] && s[0] == sep {
      SplitEmptyIff(s[1..], sep);
      assert forall i :: 1 <= i < |s| ==> s[i] == s[1..][i - 1];
    }
  }

  /** A non-empty piece free of `sep` is split into itself. */
  lemma SplitWhole(a: string, sep: char)
    requires a != [] && sep !in a
    ensures Split(a, sep) == [a]
  {
    var k := IndexOf(a, sep);
    assert a[0] in a;
    assert a[..k] == a;
    assert a[k..] == [];
  }

  /** Text without a separator is at most one piece. */
  lemma SplitNoSeparator(s: string, sep: char)
    ensures sep !in s ==> |Split(s, sep)| <= 1
  {
    if sep !in s && s != [] {
      SplitWhole(s, sep);
    }
  }

  /** A separator cuts the text in two: the pieces of `a + [sep] + b` are the pieces
      of `a` followed by the pieces of `b`. With SplitWhole and `Split([], sep) == []`
      this pins down every piece: they are the maximal runs free of `sep`. */
  lemma {:induction false} SplitAppend(a: string, sep: char, b: string)
    ensures Split(a + [sep] + b, sep) == Split(a, sep) + Split(b, sep)
    decreases |a|
  {
    var s := a + [sep] + b;
    if a == [] {
      assert s[1..] == b;
    } else if a[0] == sep {
      assert s[1..] == a[1..] + [sep] + b;
      SplitAppend(a[1..], sep, b);
    } else {
      var k := IndexOf(a, sep);
      assert s[..|a|] == a;
      assert s[k] == sep;
      assert s[..k] == a[..k];
      assert IndexOf(s, sep) == k;
      assert s[k..] == a[k..] + [sep] + b;
      SplitAppend(a[k..], sep, b);
    }
  }

  predicate IsDigit(c: char) {
    '0' <= c <= '9'
  }

  function DigitChar(d: int): (c: char)
    requires 0 <= d < 10
    ensures IsDigit(c)
  {
    ('0' as int + d) as char
  }

  function DigitValue(c: char): int {
    c as int - '0' as int
  }

  /** `%d` of a non-negative integer: its decimal digits, most significant first,
      with no leading zero. */
  function Digits(n: nat): (r: string)
    ensures r != [] && forall i :: 0 <= i < |r| ==> IsDigit(r[i])
    ensures n >= 10 ==> r[0] != '0'
  {
    if n < 10 then [DigitChar(n)] else Digits(n / 10) + [DigitChar(n % 10)]
  }

  /** The number a string of decimal digits denotes. */
  function DigitsValue(s: string): int {
    if s == [] then 0 else DigitsValue(s[..|s| - 1]) * 10 + DigitValue(s[|s| - 1])
  }

  /** Reading back what Digits wrote gives the number. */
  lemma {:induction false} DigitsRoundTrip(n: nat)
    ensures DigitsValue(Digits(n)) == n
  {
    if n >= 10 {
      var r := Digits(n);
      assert r[..|r| - 1] == Digits(n / 10);
      DigitsRoundTrip(n / 10);
    }
  }

  /** A leading zero does not change the value. */
  lemma {:induction false} LeadingZero(s: string)
    ensures DigitsValue("0" + s) == DigitsValue(s)
    decreases |s|
  {
    if s != [] {
      assert ("0" + s)[..|"0" + s| - 1] == "0" + s[..|s| - 1];
      LeadingZero(s[..|s| - 1]);
    }
  }

  /** `%d` of any integer: the digits of its magnitude, after a minus sign when it
      is negative. */
  function DecimalString(i: int): (r: string)
    ensures i >= 0 ==> (forall k :: 0 <= k < |r| ==> IsDigit(r[k])) && DigitsValue(r) == i
    ensures i < 0 ==> r != [] && r[0] == '-' && DigitsValue(r[1..]) == -i
  {
    DigitsRoundTrip(if i < 0 then -i else i);
    if i < 0 then
      assert ("-" + Digits(-i))[1..] == Digits(-i);
      "-" + Digits(-i)
    else Digits(i)
  }

  /** `%02d`: zero-padded to width 2, so a value from 0 to 99 is exactly two digits
      denoting it; a negative value already has width 2 or more. */
  function Pad2(i: int): (r: string)
    ensures 0 <= i < 100 ==> |r| == 2 && IsDigit(r[0]) && IsDigit(r[1]) && DigitsValue(r) == i
  {
    if 0 <= i < 10 then
      LeadingZero(Digits(i));
      DigitsRoundTrip(i);
      "0" + Digits(i)
    else
      assert 10 <= i < 100 ==> Digits(i) == [DigitChar(i / 10)] + [DigitChar(i % 10)];
      DecimalString(i)
  }
}
