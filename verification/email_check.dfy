/** The address check behind the Save button of the add/edit contact sheet
    (`isValidEmail`). The link detector is Foundation's and is not part of this
    model: it is a parameter that maps the trimmed text to the links it reports. */
module EmailCheck {
  import opened Base
  import opened Text

  /** The two parts of a detected link's `URL` the check looks at. */
  datatype Url = Url(scheme: string, absoluteString: string)

  /** One `NSTextCheckingResult`: where the link lies in the text, and its URL. */
  datatype LinkMatch = LinkMatch(location: int, length: int, url: Option<Url>)

  /** What the detector reports for a text. */
  type Detector = string -> seq<LinkMatch>

  const MailtoScheme: string := "mailto"
  const MailtoPrefix: string := "mailto:"

  /** `replacingOccurrences(of: pat, with: "")`: scanning left to right, every
      occurrence of `pat` that does not overlap an earlier one is cut out. */
  function RemoveAll(s: string, pat: string): (r: string)
    requires pat != []
    ensures |r| <= |s|
    ensures forall i :: 0 <= i < |r| ==> r[i] in s
    decreases |s|
  {
    if |s| < |pat| then s
    else if s[..|pat|] == pat then RemoveAll(s[|pat|..], pat)
    else [s[0]] + RemoveAll(s[1..], pat)
  }

  /** A text in which the last character of `pat` never occurs holds no occurrence
      of `pat`, so nothing is removed from it. */
  lemma {:induction false} RemoveAllAbsent(s: string, pat: string)
    requires pat != [] && pat[|pat| - 1] !in s
    ensures RemoveAll(s, pat) == s
    decreases |s|
  {
    if |s| >= |pat| {
      assert s[..|pat|][|pat| - 1] == s[|pat| - 1];
      RemoveAllAbsent(s[1..], pat);
      assert s == [s[0]] + s[1..];
    }
  }

  /** An occurrence of `pat` starts at index `i` of `s`. */
  predicate At(s: string, pat: string, i: nat) {
    i + |pat| <= |s| && s[i..i + |pat|] == pat
  }

  /** Text in which `pat` occurs nowhere is left as it is: only occurrences are
      removed. */
  lemma {:induction false} RemoveAllNone(s: string, pat: string)
    requires pat != [] && forall i: nat :: !At(s, pat, i)
    ensures RemoveAll(s, pat) == s
    decreases |s|
  {
    if |s| >= |pat| {
      assert !At(s, pat, 0);
      forall i: nat
        ensures !At(s[1..], pat, i)
      {
        assert !At(s, pat, i + 1);
        if i + |pat| <= |s[1..]| {
          assert s[1..][i..i + |pat|] == s[i + 1..i + 1 + |pat|];
        }
      }
      RemoveAllNone(s[1..], pat);
      assert s == [s[0]] + s[1..];
    }
  }

  /** A leading occurrence of `pat` is cut out. */
  lemma RemoveAllPrefix(s: string, pat: string)
    requires pat != []
    ensures RemoveAll(pat + s, pat) == RemoveAll(s, pat)
  {
    assert (pat + s)[..|pat|] == pat;
    assert (pat + s)[|pat|..] == s;
  }

  /** An occurrence of `pat` anywhere is cut out, and the text on either side is
      treated as if it stood alone. This needs `pat` to end in a character it does
      not hold elsewhere (as `mailto:` does): then no occurrence can begin in `a`
      and run into the one that follows. */
  lemma {:induction false} RemoveAllSplice(a: string, pat: string, b: string)
    requires pat != [] && pat[|pat| - 1] !in pat[..|pat| - 1]
    ensures RemoveAll(a + pat + b, pat) == RemoveAll(a, pat) + RemoveAll(b, pat)
    decreases |a|
  {
    var s := a + pat + b;
    if a == [] {
      assert s == pat + b;
      RemoveAllPrefix(b, pat);
    } else if |a| >= |pat| && a[..|pat|] == pat {
      assert s[..|pat|] == pat;
      assert s[|pat|..] == a[|pat|..] + pat + b;
      RemoveAllSplice(a[|pat|..], pat, b);
    } else {
      if |a| >= |pat| {
        assert s[..|pat|] == a[..|pat|];
      } else {
        assert s[|pat| - 1] == pat[|pat| - 1 - |a|];
        assert pat[|pat| - 1 - |a|] in pat[..|pat| - 1];
        assert s[..|pat|][|pat| - 1] != pat[|pat| - 1];
      }
      assert s[1..] == a[1..] + pat + b;
      RemoveAllSplice(a[1..], pat, b);
    }
  }

  /** `replacingOccurrences(of: "mailto:", with: "")` cuts out every occurrence,
      wherever it stands. */
  lemma MailtoRemovedAnywhere(a: string, b: string)
    ensures RemoveAll(a + MailtoPrefix + b, MailtoPrefix) ==
      RemoveAll(a, MailtoPrefix) + RemoveAll(b, MailtoPrefix)
  {
    assert MailtoPrefix[..6] == "mailto";
    RemoveAllSplice(a, MailtoPrefix, b);
  }

  /** The detector found exactly one link, it starts at the first character of `t`,
      spans all of it, and has the `mailto` scheme. */
  predicate WholeMailto(t: string, matches: seq<LinkMatch>) {
    |matches| == 1 && matches[0].location == 0 && matches[0].length == |t| &&
    matches[0].url.Some? && matches[0].url.value.scheme == MailtoScheme
  }

  /** Whether any character of `s` is white space or a newline
      (`rangeOfCharacter(from: .whitespacesAndNewlines) != nil`). */
  predicate HasSpace(s: string) {
    exists i :: 0 <= i < |s| && IsSpace(s[i])
  }

  /** The structural checks on the address: one `@` once empty pieces are dropped,
      a host with at least two dot-separated pieces, a last piece of two or more
      characters, and no white space anywhere. */
  predicate WellShaped(addr: string)
    ensures WellShaped(addr) ==> '@' in addr && !HasSpace(addr)
  {
    SplitNoSeparator(addr, '@');
    var parts := Split(addr, '@');
    |parts| == 2 &&
    var hostParts := Split(parts[1], '.');
    |hostParts| >= 2 && |hostParts[|hostParts| - 1]| >= 2 &&
    !HasSpace(addr)
  }

  /** `isValidEmail`. Input that is empty or only white space is rejected; an
      accepted input is exactly one `mailto` link, as far as the detector is
      concerned, covering the whole trimmed text, and the address in that link
      (with `mailto:` removed) has the structure WellShaped describes. */
  function IsValidEmail(email: string, detect: Detector): (r: bool)
    ensures AllSpace(email) ==> !r
    ensures r ==> Trim(email) != [] && WholeMailto(Trim(email), detect(Trim(email)))
    ensures r ==> WellShaped(RemoveAll(detect(Trim(email))[0].url.value.absoluteString, MailtoPrefix))
  {
    var trimmed := Trim(email);
    TrimEmptyIff(email);
    if trimmed == [] then false
    else
      var matches := detect(trimmed);
      if !WholeMailto(trimmed, matches) then false
      else WellShaped(RemoveAll(matches[0].url.value.absoluteString, MailtoPrefix))
  }

  /** Only the trimmed text matters: white space around the input never changes
      the verdict. */
  lemma TrimmedInputSameVerdict(email: string, detect: Detector)
    ensures IsValidEmail(Trim(email), detect) == IsValidEmail(email, detect)
  {
    TrimIdempotent(email);
  }

  /** White space in a concatenation comes from one of its parts. */
  lemma NoSpaceConcat(a: string, b: string)
    requires !HasSpace(a) && !HasSpace(b)
    ensures !HasSpace(a + b)
  {
    forall i | 0 <= i < |a + b| ensures !IsSpace((a + b)[i]) {
      if i < |a| {
        assert (a + b)[i] == a[i];
      } else {
        assert (a + b)[i] == b[i - |a|];
      }
    }
  }

  /** An ordinary address — a local part, `@`, a domain label, `.` and a top-level
      label of two or more characters, none of them holding `@` or white space and
      the two labels holding no `.` — has the shape the check asks for. */
  lemma PlainAddressWellShaped(local: string, domain: string, tld: string)
    requires local != [] && domain != [] && |tld| >= 2
    requires '@' !in local && '@' !in domain && '@' !in tld
    requires '.' !in domain && '.' !in tld
    requires !HasSpace(local) && !HasSpace(domain) && !HasSpace(tld)
    ensures WellShaped(local + "@" + domain + "." + tld)
  {
    var host := domain + ['.'] + tld;
    var addr := local + ['@'] + host;
    assert local + "@" + domain + "." + tld == addr;
    assert '@' !in host;
    SplitAppend(local, '@', host);
    SplitWhole(local, '@');
    SplitWhole(host, '@');
    assert Split(addr, '@') == [local, host];
    SplitAppend(domain, '.', tld);
    SplitWhole(domain, '.');
    SplitWhole(tld, '.');
    assert Split(host, '.') == [domain, tld];
    assert !HasSpace(['@']) && !HasSpace(['.']);
    NoSpaceConcat(domain, ['.']);
    NoSpaceConcat(domain + ['.'], tld);
    NoSpaceConcat(local, ['@']);
    NoSpaceConcat(local + ['@'], host);
  }

  /** Completeness of the check: when the detector reports the whole trimmed input
      as one `mailto:` link whose address is ordinary (see PlainAddressWellShaped)
      and holds no `:`, the input is accepted. */
  lemma PlainAddressAccepted(email: string, detect: Detector, local: string, domain: string, tld: string)
    requires Trim(email) != [] && WholeMailto(Trim(email), detect(Trim(email)))
    requires detect(Trim(email))[0].url.value.absoluteString == MailtoPrefix + local + "@" + domain + "." + tld
    requires local != [] && domain != [] && |tld| >= 2
    requires '@' !in local && '@' !in domain && '@' !in tld
    requires '.' !in domain && '.' !in tld
    requires ':' !in local && ':' !in domain && ':' !in tld
    requires !HasSpace(local) && !HasSpace(domain) && !HasSpace(tld)
    ensures IsValidEmail(email, detect)
  {
    var addr := local + "@" + domain + "." + tld;
    assert MailtoPrefix + local + "@" + domain + "." + tld == MailtoPrefix + addr;
    RemoveAllPrefix(addr, MailtoPrefix);
    assert ':' !in addr;
    RemoveAllAbsent(addr, MailtoPrefix);
    PlainAddressWellShaped(local, domain, tld);
  }

  /** Because `split(separator:)` drops empty pieces, a doubled `@` counts as one:
      the structural checks accept `local@@domain.tld` just as they accept
      `local@domain.tld`. */
  lemma DoubledAtWellShaped(local: string, domain: string, tld: string)
    requires local != [] && domain != [] && |tld| >= 2
    requires '@' !in local && '@' !in domain && '@' !in tld
    requires '.' !in domain && '.' !in tld
    requires !HasSpace(local) && !HasSpace(domain) && !HasSpace(tld)
    ensures WellShaped(local + "@@" + domain + "." + tld)
  {
    var host := domain + ['.'] + tld;
    var addr := local + ['@'] + (['@'] + host);
    assert local + "@@" + domain + "." + tld == addr;
    assert '@' !in host;
    SplitAppend(local, '@', ['@'] + host);
    SplitWhole(local, '@');
    assert (['@'] + host)[1..] == host;
    SplitWhole(host, '@');
    assert Split(addr, '@') == [local, host];
    SplitAppend(domain, '.', tld);
    SplitWhole(domain, '.');
    SplitWhole(tld, '.');
    assert Split(host, '.') == [domain, tld];
    assert !HasSpace(['@']) && !HasSpace(['.']);
    NoSpaceConcat(domain, ['.']);
    NoSpaceConcat(domain + ['.'], tld);
    NoSpaceConcat(local, ['@']);
    NoSpaceConcat(['@'], host);
    NoSpaceConcat(local + ['@'], ['@'] + host);
  }
}
