/** Switching the interface language by rewriting the current path. */
module LocaleUtils {
  import opened Wrappers

  /** The locale switched to: `ru` from `en`, `en` from anything else. */
  function OtherLocale(current: string): (next: string)
    ensures next == "ru" <==> current == "en"
    ensures next == "en" <==> current != "en"
  {
    if current == "en" then "ru" else "en"
  }

  /** `pat` occurs in `s` starting at index `i`. */
  predicate OccursAt(s: string, pat: string, i: int) {
    0 <= i && i + |pat| <= |s| && s[i..i + |pat|] == pat
  }

  /** `i` is the first index where `pat` occurs in `s`. */
  predicate FirstOccurrence(s: string, pat: string, i: int) {
    OccursAt(s, pat, i) && forall j :: 0 <= j < i ==> !OccursAt(s, pat, j)
  }

  /** `pat` occurs nowhere in `s`. */
  predicate NoOccurrence(s: string, pat: string) {
    forall j :: 0 <= j <= |s| ==> !OccursAt(s, pat, j)
  }

  /** The first index at or after `from` where `pat` occurs in `s`. */
  function IndexOf(s: string, pat: string, from: nat): (r: Option<nat>)
    requires from <= |s|
    ensures r.Some? ==> from <= r.value && OccursAt(s, pat, r.value)
    ensures r.Some? ==> forall j :: from <= j < r.value ==> !OccursAt(s, pat, j)
    ensures r.None? ==> forall j :: from <= j <= |s| ==> !OccursAt(s, pat, j)
    decreases |s| - from
  {
    if OccursAt(s, pat, from) then Some(from)
    else if from == |s| then None
    else IndexOf(s, pat, from + 1)
  }

  /** String replacement with a string pattern: only the first occurrence is
      replaced, and the text is returned unchanged when there is none. The
      replacement is inserted as it is, which is how it behaves for the
      replacements used here, none of which contains `$`. */
  function ReplaceFirst(s: string, pat: string, rep: string): (r: string)
    ensures NoOccurrence(s, pat) ==> r == s
    ensures forall i :: FirstOccurrence(s, pat, i) ==> r == s[..i] + rep + s[i + |pat|..]
  {
    assert forall i :: FirstOccurrence(s, pat, i) ==> IndexOf(s, pat, 0) == Some(i);
    match IndexOf(s, pat, 0)
    case Some(i) => s[..i] + rep + s[i + |pat|..]
    case None => s
  }

  /** The path of the same page in the other locale: the first occurrence of
      `/` followed by the current locale is replaced by `/` and the new one. */
  function ToggleToOtherLocale(currentLocale: string, pathname: string): (r: string)
    ensures NoOccurrence(pathname, "/" + currentLocale) ==> r == pathname
    ensures forall i :: FirstOccurrence(pathname, "/" + currentLocale, i) ==>
      && r == pathname[..i] + "/" + OtherLocale(currentLocale) + pathname[i + |currentLocale| + 1..]
      && |r| == |pathname| - |currentLocale| + |OtherLocale(currentLocale)|
  {
    var newLocale := OtherLocale(currentLocale);
    ReplaceFirst(pathname, "/" + currentLocale, "/" + newLocale)
  }

  /** A path that starts with `/` and the current locale gets the new
      locale in that place and keeps the rest. */
  lemma {:induction false} ToggleAtStart(locale: string, rest: string)
    ensures ToggleToOtherLocale(locale, "/" + locale + rest) == "/" + OtherLocale(locale) + rest
  {
    var path := "/" + locale + rest;
    assert FirstOccurrence(path, "/" + locale, 0);
    assert path[..0] == "";
    assert path[|locale| + 1..] == rest;
  }

  /** Switching from `en` or `ru` on a path that starts with that locale and
      then switching back from the new locale restores the path. */
  lemma ToggleRoundTrip(locale: string, rest: string)
    requires locale == "en" || locale == "ru"
    ensures ToggleToOtherLocale(OtherLocale(locale), ToggleToOtherLocale(locale, "/" + locale + rest)) == "/" + locale + rest
  {
    ToggleAtStart(locale, rest);
    ToggleAtStart(OtherLocale(locale), rest);
  }

  /** Matching is by substring, not by path segment: a first segment that
      merely begins with the locale, such as `/english`, is rewritten too
      (to `/ruglish`). */
  lemma ToggleInsideSegment(rest: string)
    requires rest != [] && rest[0] != '/'
    ensures ToggleToOtherLocale("en", "/en" + rest) == "/ru" + rest
  {
    ToggleAtStart("en", rest);
    assert "/" + "en" + rest == "/en" + rest;
    assert "/" + "ru" + rest == "/ru" + rest;
  }

  /** Only the first occurrence is replaced; later ones stay. */
  lemma ToggleFirstOnly(locale: string, rest: string)
    ensures ToggleToOtherLocale(locale, "/" + locale + rest + "/" + locale)
      == "/" + OtherLocale(locale) + rest + "/" + locale
  {
    var later := rest + "/" + locale;
    ToggleAtStart(locale, later);
    assert "/" + locale + rest + "/" + locale == "/" + locale + later;
    assert "/" + OtherLocale(locale) + later == "/" + OtherLocale(locale) + rest + "/" + locale;
  }
}
