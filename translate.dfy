/**
 * The translation step: the product-path fragment of each broken URL
 * (`str.extract(r'/de/products/(.*)')`), hyphens turned into spaces, and
 * one call of the translator per row, an exception being recorded as the
 * marker string "TRANSLATION_FAILED". The translator itself is a
 * parameter: whatever it returns or raises for a given fragment.
 */
module Translate {
  import opened Wrappers
  import opened Tables

  const ProductPath: string := "/de/products/"

  /** The marker stored as the guess of a row whose translation raised. */
  const FailureMarker: string := "TRANSLATION_FAILED"

  /** What one call of the translator does: return a text or raise. */
  datatype Translation = Translated(text: string) | Raised

  /** `pat` occurs in `s` at position `p`. */
  predicate OccursAt(s: string, pat: string, p: int) {
    0 <= p && p + |pat| <= |s| && s[p..p + |pat|] == pat
  }

  /** The first position at which `pat` occurs in `s`, as a regex search finds it. */
  function Find(s: string, pat: string): (r: Option<nat>)
    ensures r.Some? ==> OccursAt(s, pat, r.value) && forall p :: 0 <= p < r.value ==> !OccursAt(s, pat, p)
    ensures r.None? ==> forall p :: !OccursAt(s, pat, p)
  {
    if |s| < |pat| then None
    else if s[..|pat|] == pat then Some(0)
    else
      var r := Find(s[1..], pat);
      assert !OccursAt(s, pat, 0);
      forall p | 1 <= p
        ensures OccursAt(s, pat, p) <==> OccursAt(s[1..], pat, p - 1)
      {
        if p + |pat| <= |s| {
          assert s[1..][p - 1..p - 1 + |pat|] == s[p..p + |pat|];
        }
      }
      match r
      case None => None
      case Some(p) => Some(p + 1)
  }

  /** What `.*` matches: everything up to the first line break. */
  function TakeLine(s: string): (r: string)
    ensures '\n' !in r
    ensures r <= s && (|r| == |s| || s[|r|] == '\n')
  {
    if s == [] || s[0] == '\n' then [] else
      var rest := TakeLine(s[1..]);
      assert s == [s[0]] + s[1..];
      [s[0]] + rest
  }

  /**
   * Line 53: the text after the first "/de/products/" of the URL, up to a
   * line break; None (NaN) when the URL does not contain the path.
   */
  function ExtractFragment(url: string): (r: Option<string>)
    ensures r.None? <==> forall p :: !OccursAt(url, ProductPath, p)
    ensures r.Some? ==> exists p :: (OccursAt(url, ProductPath, p)
      && (forall p' :: 0 <= p' < p ==> !OccursAt(url, ProductPath, p'))
      && r.value <= url[p + |ProductPath|..]
      && (p + |ProductPath| + |r.value| == |url| || url[p + |ProductPath| + |r.value|] == '\n'))
    ensures r.Some? ==> '\n' !in r.value
  {
    match Find(url, ProductPath)
    case None => None
    case Some(p) => Some(TakeLine(url[p + |ProductPath|..]))
  }

  /** Line 54: `str.replace('-', ' ')`. */
  function CleanFragment(f: string): (r: string)
    ensures |r| == |f| && '-' !in r
    ensures forall i :: 0 <= i < |f| ==> r[i] == (if f[i] == '-' then ' ' else f[i])
  {
    if f == [] then [] else [if f[0] == '-' then ' ' else f[0]] + CleanFragment(f[1..])
  }

  function CleanSlug(fragment: Option<string>): Option<string> {
    match fragment
    case None => None
    case Some(f) => Some(CleanFragment(f))
  }

  /** Lines 57-60: the translated text, or the marker when the call raised. */
  function GuessOf(t: Translation): (g: string)
    ensures t.Raised? ==> g == FailureMarker
    ensures t.Translated? ==> g == t.text
  {
    match t
    case Translated(text) => text
    case Raised => FailureMarker
  }

  /**
   * The translated row for the broken URL at position `i`. The translator
   * is called once per row, so its outcome may depend on the row as well
   * as on the fragment: the same fragment can translate on one row and
   * raise on another.
   */
  function RowFor(i: nat, url: string, translate: (nat, Option<string>) -> Translation): RedirectRow {
    var slug := ExtractFragment(url);
    RedirectRow(url, slug, CleanSlug(slug), GuessOf(translate(i, CleanSlug(slug))))
  }

  /**
   * Lines 53-62: one translator call per row, in row order; a failure on
   * one row does not stop the loop.
   */
  method TranslateRows(urls: seq<string>, translate: (nat, Option<string>) -> Translation) returns (rows: seq<RedirectRow>)
    ensures |rows| == |urls|
    ensures forall i :: 0 <= i < |urls| ==> rows[i] == RowFor(i, urls[i], translate)
    ensures forall i :: 0 <= i < |urls| && translate(i, rows[i].cleanSlug).Raised? ==> rows[i].guess == FailureMarker
  {
    rows := [];
    var i := 0;
    while i < |urls|
      invariant 0 <= i <= |urls| && |rows| == i
      invariant forall j :: 0 <= j < i ==> rows[j] == RowFor(j, urls[j], translate)
    {
      var slug := ExtractFragment(urls[i]);
      var clean := CleanSlug(slug);
      var guess := GuessOf(translate(i, clean));
      rows := rows + [RedirectRow(urls[i], slug, clean, guess)];
      i := i + 1;
    }
  }
}
