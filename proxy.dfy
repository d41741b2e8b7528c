/** cleanProxyLine (utils/proxy.js): turns one line of a proxy-list feed into
    a host:port entry, or null. */
module Proxy {
  import opened Js

  const Socks4: string := "socks4://"
  const Socks5: string := "socks5://"
  const HttpScheme: string := "http://"
  const HttpsScheme: string := "https://"

  /** s starts with the lower-case pattern pat, ASCII letters of s compared
      without case (what a non-unicode /^pat/i regular expression matches). */
  predicate StartsWithIgnoringCase(s: string, pat: string) {
    |pat| <= |s| && forall i | 0 <= i < |pat| :: LowerAsciiChar(s[i]) == pat[i]
  }

  /** s.replace(/^scheme/i, ''): removes scheme from the front of s, once. */
  function StripScheme(s: string, scheme: string): (r: string)
    ensures IsSuffix(r, s)
    ensures StartsWithIgnoringCase(s, scheme) ==> |r| == |s| - |scheme|
    ensures !StartsWithIgnoringCase(s, scheme) ==> r == s
  {
    if StartsWithIgnoringCase(s, scheme) then s[|scheme|..] else s
  }

  /** The string changes exactly when it starts with a non-empty scheme,
      ignoring case. */
  lemma StripSchemeChanges(s: string, scheme: string)
    ensures StripScheme(s, scheme) != s <==> scheme != "" && StartsWithIgnoringCase(s, scheme)
  {
    if scheme != "" && StartsWithIgnoringCase(s, scheme) {
      assert |StripScheme(s, scheme)| < |s|;
    }
  }

  /** r is what is left of s after some prefix is cut off. */
  predicate IsSuffix(r: string, s: string) {
    |r| <= |s| && r == s[|s| - |r|..]
  }

  /** The trimmed line with the four scheme prefixes removed in turn. */
  function StripSchemes(t: string): string
  {
    StripScheme(StripScheme(StripScheme(StripScheme(t, Socks4), Socks5), HttpScheme), HttpsScheme)
  }

  /** What the removals leave is a suffix of the line. */
  lemma StripSchemesSuffix(t: string)
    ensures IsSuffix(StripSchemes(t), t)
  {
    var a := StripScheme(t, Socks4);
    var b := StripScheme(a, Socks5);
    var c := StripScheme(b, HttpScheme);
    var d := StripScheme(c, HttpsScheme);
    SuffixOfSuffix(t, a, b);
    SuffixOfSuffix(t, b, c);
    SuffixOfSuffix(t, c, d);
  }

  /** A suffix of a suffix of t is a suffix of t. */
  lemma SuffixOfSuffix(t: string, a: string, b: string)
    requires IsSuffix(a, t) && IsSuffix(b, a)
    ensures IsSuffix(b, t)
  {
  }

  /** cleanProxyLine(line): null for a null or empty line; otherwise the
      trimmed line without its scheme prefixes when a ':' remains, else null. */
  function CleanProxyLine(line: Option<string>): (r: Option<string>)
    ensures !Truthy(line) ==> r.None?
    ensures r.Some? ==> ':' in r.value && Truthy(r)
    ensures r.Some? ==> IsSuffix(r.value, Trim(line.value))
    ensures Truthy(line) ==> (r.Some? <==> ':' in StripSchemes(Trim(line.value)))
  {
    if !Truthy(line) then None
    else
      var cleaned := StripSchemes(Trim(line.value));
      StripSchemesSuffix(Trim(line.value));
      if ':' in cleaned then Some(cleaned) else None
  }

  /** A line with no scheme in front and a ':' in it comes back trimmed and
      otherwise unchanged. */
  lemma NoSchemeKept(line: string)
    requires ':' in Trim(line)
    requires !StartsWithIgnoringCase(Trim(line), Socks4)
    requires !StartsWithIgnoringCase(Trim(line), Socks5)
    requires !StartsWithIgnoringCase(Trim(line), HttpScheme)
    requires !StartsWithIgnoringCase(Trim(line), HttpsScheme)
    ensures CleanProxyLine(Some(line)) == Some(Trim(line))
  {
  }

  /** No scheme has an upper-case letter. */
  lemma SchemesLower(s: string)
    requires s == Socks4 || s == Socks5 || s == HttpScheme || s == HttpsScheme
    ensures forall i | 0 <= i < |s| :: !('A' <= s[i] <= 'Z')
  {
  }

  lemma Socks4StripsToEmpty()
    ensures StripSchemes(Socks4) == ""
  {
    SchemesLower(Socks4);
    StripPresent(Socks4, "");
    assert Socks4 + "" == Socks4;
  }

  lemma Socks5StripsToEmpty()
    ensures StripSchemes(Socks5) == ""
  {
    StripDiffers(Socks5, Socks4, 5);
    SchemesLower(Socks5);
    StripPresent(Socks5, "");
    assert Socks5 + "" == Socks5;
  }

  lemma HttpStripsToEmpty()
    ensures StripSchemes(HttpScheme) == ""
  {
    StripDiffers(HttpScheme, Socks4, 0);
    StripDiffers(HttpScheme, Socks5, 0);
    SchemesLower(HttpScheme);
    StripPresent(HttpScheme, "");
    assert HttpScheme + "" == HttpScheme;
  }

  lemma HttpsStripsToEmpty()
    ensures StripSchemes(HttpsScheme) == ""
  {
    StripDiffers(HttpsScheme, Socks4, 0);
    StripDiffers(HttpsScheme, Socks5, 0);
    StripDiffers(HttpsScheme, HttpScheme, 4);
    SchemesLower(HttpsScheme);
    StripPresent(HttpsScheme, "");
    assert HttpsScheme + "" == HttpsScheme;
  }

  /** A scheme and nothing else ("socks4://", "https://") leaves no ':', so
      the line is dropped. */
  lemma BareSchemeDropped(line: string, scheme: string)
    requires scheme == Socks4 || scheme == Socks5 || scheme == HttpScheme || scheme == HttpsScheme
    requires Trim(line) == scheme
    ensures CleanProxyLine(Some(line)) == None
  {
    if scheme == Socks4 {
      Socks4StripsToEmpty();
    } else if scheme == Socks5 {
      Socks5StripsToEmpty();
    } else if scheme == HttpScheme {
      HttpStripsToEmpty();
    } else {
      HttpsStripsToEmpty();
    }
  }

  /** Removing a lower-case scheme that is there. */
  lemma StripPresent(scheme: string, rest: string)
    requires forall i | 0 <= i < |scheme| :: !('A' <= scheme[i] <= 'Z')
    ensures StripScheme(scheme + rest, scheme) == rest
  {
    var s := scheme + rest;
    assert forall i | 0 <= i < |scheme| :: s[i] == scheme[i];
    assert s[|scheme|..] == rest;
  }

  /** Nothing to remove when some character that is not an upper-case letter
      differs from the scheme's at the same place. */
  lemma StripDiffers(s: string, scheme: string, k: nat)
    requires k < |scheme| && k < |s|
    requires !('A' <= s[k] <= 'Z') && s[k] != scheme[k]
    ensures StripScheme(s, scheme) == s
  {
    assert LowerAsciiChar(s[k]) == s[k];
  }

  /** The schemes are removed in the order the source applies them, each at
      most once: "socks4://socks5://h:1" loses both schemes. */
  lemma StrippedInOrder()
    ensures StripSchemes(Socks4 + (Socks5 + "h:1")) == "h:1"
  {
    SchemesLower(Socks4);
    SchemesLower(Socks5);
    StripPresent(Socks4, Socks5 + "h:1");
    StripPresent(Socks5, "h:1");
  }

  /** In "socks5://socks4://h:1" the socks4 test has already been made when
      socks5 is removed, so the inner "socks4://" stays. */
  lemma StrippedOnce()
    ensures StripSchemes(Socks5 + (Socks4 + "h:1")) == Socks4 + "h:1"
  {
    var rest := Socks4 + "h:1";
    var s := Socks5 + rest;
    assert s[5] == '5' && rest[0] == 's';
    StripDiffers(s, Socks4, 5);
    SchemesLower(Socks5);
    StripPresent(Socks5, rest);
    StripDiffers(rest, HttpScheme, 0);
    StripDiffers(rest, HttpsScheme, 0);
  }

  /** Cleaning a line is cleaning its trim: surrounding whitespace, a "\r"
      left by splitting on "\n" included, never changes the entry. */
  lemma CleanUntrimmed(line: string)
    ensures CleanProxyLine(Some(line)) == CleanProxyLine(Some(Trim(line)))
  {
    var t := Trim(line);
    if line != [] {
      CleanTrimmed(t);
      assert CleanProxyLine(Some(line)) == if ':' in StripSchemes(t) then Some(StripSchemes(t)) else None;
    }
  }

  /** A line with no surrounding whitespace is cleaned as it is. */
  lemma CleanTrimmed(line: string)
    requires line != [] ==> !IsWhitespace(line[0]) && !IsWhitespace(line[|line| - 1])
    ensures CleanProxyLine(Some(line)) ==
              if ':' in StripSchemes(line) then Some(StripSchemes(line)) else None
  {
    if line == [] {
      StripSchemesSuffix(line);
      assert StripSchemes(line) == [];
    } else {
      TrimUnchanged(line);
    }
  }
}
