/** The pathname rewrite inside `switchLocale` of
    frontend/components/LanguageSwitcher.tsx: the current locale prefix is
    swapped for the new one, a bare locale path becomes the new bare locale
    path, and any other absolute path gets the new locale prepended. The
    `router.push` that follows is not modelled. */
module LanguageSwitcher {
  import opened Strings

  /** JavaScript's `s.replace(pattern, replacement)` with a string
      pattern: only the first occurrence is replaced. */
  function ReplaceFirst(s: string, pattern: string, replacement: string): string {
    var k := IndexOf(s, pattern, 0);
    if k == -1 then s else s[..k] + replacement + s[k + |pattern|..]
  }

  /** Without an occurrence nothing changes; otherwise the first
      occurrence, and only it, is replaced. */
  lemma ReplaceFirstSpec(s: string, pattern: string, replacement: string)
    ensures (forall k :: !IsAt(s, pattern, k)) ==> ReplaceFirst(s, pattern, replacement) == s
    ensures (exists k :: IsAt(s, pattern, k)) ==>
      exists k :: && IsAt(s, pattern, k)
                  && (forall j :: 0 <= j < k ==> !IsAt(s, pattern, j))
                  && ReplaceFirst(s, pattern, replacement) == s[..k] + replacement + s[k + |pattern|..]
  {
    IndexOfSpec(s, pattern, 0);
    var k := IndexOf(s, pattern, 0);
    if k != -1 {
      assert IsAt(s, pattern, k) && forall j :: 0 <= j < k ==> !IsAt(s, pattern, j);
    } else {
      assert forall j :: 0 <= j ==> !IsAt(s, pattern, j);
    }
  }

  /** `/${locale}` and `/${locale}/`. */
  function Bare(locale: string): string {
    "/" + locale
  }

  function Prefix(locale: string): string {
    "/" + locale + "/"
  }

  /** The new pathname `switchLocale(newLocale)` pushes. */
  function SwitchLocale(pathname: string, locale: string, newLocale: string): string {
    if StartsWith(pathname, Prefix(locale)) then
      ReplaceFirst(pathname, Prefix(locale), Prefix(newLocale))
    else if pathname == Bare(locale) then
      Bare(newLocale)
    else if StartsWith(pathname, "/") then
      Bare(newLocale) + pathname
    else
      pathname
  }

  /** A path under the current locale keeps everything after the prefix,
      which the new prefix replaces; the replace hits offset 0. */
  lemma SwitchPrefixed(pathname: string, locale: string, newLocale: string)
    requires StartsWith(pathname, Prefix(locale))
    ensures SwitchLocale(pathname, locale, newLocale) ==
      Prefix(newLocale) + pathname[|Prefix(locale)|..]
  {
    var p := Prefix(locale);
    assert IsAt(pathname, p, 0);
    assert IndexOf(pathname, p, 0) == 0;
    assert pathname[..0] == "";
  }

  /** The bare locale path becomes the bare new locale path. */
  lemma SwitchBare(locale: string, newLocale: string)
    ensures SwitchLocale(Bare(locale), locale, newLocale) == Bare(newLocale)
  {
    assert !StartsWith(Bare(locale), Prefix(locale));
  }

  /** Every other absolute path gets the new locale prepended, even one
      that only looks like a locale path. */
  lemma SwitchOther(pathname: string, locale: string, newLocale: string)
    requires StartsWith(pathname, "/")
    requires !StartsWith(pathname, Prefix(locale)) && pathname != Bare(locale)
    ensures SwitchLocale(pathname, locale, newLocale) == Bare(newLocale) + pathname
  {
  }

  /** Both locale forms are absolute paths. */
  lemma LocaleFormsAbsolute(pathname: string, locale: string)
    ensures StartsWith(pathname, Prefix(locale)) ==> StartsWith(pathname, "/")
    ensures pathname == Bare(locale) ==> StartsWith(pathname, "/")
  {
    if StartsWith(pathname, Prefix(locale)) {
      assert pathname[..1] == Prefix(locale)[..1];
    }
    if pathname == Bare(locale) {
      assert pathname[..1] == "/";
    }
  }

  /** A relative path is left as it is. */
  lemma SwitchRelative(pathname: string, locale: string, newLocale: string)
    requires !StartsWith(pathname, "/")
    ensures SwitchLocale(pathname, locale, newLocale) == pathname
  {
    LocaleFormsAbsolute(pathname, locale);
  }

  lemma PrefixedParts(p: string, rest: string)
    ensures StartsWith(p + rest, p) && (p + rest)[|p|..] == rest
  {
    assert (p + rest)[..|p|] == p;
  }

  /** Switching there and back restores a path under the locale and the
      bare locale path. */
  lemma SwitchRoundTrip(pathname: string, locale: string, newLocale: string)
    requires StartsWith(pathname, Prefix(locale)) || pathname == Bare(locale)
    ensures SwitchLocale(SwitchLocale(pathname, locale, newLocale), newLocale, locale) == pathname
  {
    if StartsWith(pathname, Prefix(locale)) {
      var rest := pathname[|Prefix(locale)|..];
      SwitchPrefixed(pathname, locale, newLocale);
      assert pathname == pathname[..|Prefix(locale)|] + rest;
      PrefixedParts(Prefix(newLocale), rest);
      SwitchPrefixed(Prefix(newLocale) + rest, newLocale, locale);
    } else {
      SwitchBare(locale, newLocale);
      SwitchBare(newLocale, locale);
    }
  }

  /** `/enx` is not under `en`, so it becomes `/he/enx`. */
  lemma LookAlikePrefixed()
    ensures SwitchLocale("/enx", "en", "he") == "/he/enx"
  {
    assert Prefix("en") == "/en/";
    assert "/enx"[..4][3] == 'x';
  }

  /** A path outside the locale does not come back: the trip there adds
      the new locale, and the trip back swaps it for the old one, so the
      path ends up under the old locale. */
  lemma OtherNotRestored(pathname: string, locale: string, newLocale: string)
    requires StartsWith(pathname, "/")
    requires !StartsWith(pathname, Prefix(locale)) && pathname != Bare(locale)
    ensures SwitchLocale(SwitchLocale(pathname, locale, newLocale), newLocale, locale) ==
      Prefix(locale) + pathname[1..]
    ensures SwitchLocale(SwitchLocale(pathname, locale, newLocale), newLocale, locale) != pathname
  {
    var there := Bare(newLocale) + pathname;
    assert there == Prefix(newLocale) + pathname[1..];
    assert there[..|Prefix(newLocale)|] == Prefix(newLocale);
    SwitchPrefixed(there, newLocale, locale);
    assert there[|Prefix(newLocale)|..] == pathname[1..];
    var back := Prefix(locale) + pathname[1..];
    assert back[..|Prefix(locale)|] == Prefix(locale);
  }
}
