/**
 * The two-tier matcher. The similarity scorers (rapidfuzz's
 * `token_set_ratio` and `partial_ratio`) are parameters: any function from
 * a query and a choice to a score between 0 and 100. What is modelled is
 * how the best choice is selected (`process.extractOne`: the first choice
 * with the highest score), how the top candidates are selected
 * (`process.extract`: highest scores first, ties in catalog order), and
 * the tiered thresholds of `fuzzy_match`.
 */
module Matcher {
  import opened Tables
  import opened Normalizer
  import opened Catalog

  type Score = r: real | 0.0 <= r <= 100.0

  /** A similarity scorer, applied as `scorer(query, choice)`. */
  type Scorer = (string, string) -> Score

  /** `fuzzy_match`'s default first-tier threshold. */
  const DefaultThreshold: real := 82.0

  /** The fixed bar of the partial-ratio tier. */
  const PartialBar: real := 90.0

  datatype Tier = TokenSetRatio | PartialRatio {
    /** The tag stored in the "Match method" column. */
    function Name(): string {
      match this
      case TokenSetRatio => "token_set_ratio"
      case PartialRatio => "partial_ratio"
    }
  }

  /** What `fuzzy_match` returns when it finds a match. */
  datatype Match = Match(title: Cell, slug: Cell, score: Score, tier: Tier)

  /**
   * The outcome of `fuzzy_match`: a match, the all-None tuple, or the
   * TypeError raised when `extractOne` over an empty `titles` returns None
   * and its result is unpacked.
   */
  datatype MatchResult = Found(m: Match) | NoMatch | EmptyCatalog

  /** `i` is the first position holding the highest score for `q`. */
  ghost predicate IsFirstMax(q: string, titles: seq<string>, scorer: Scorer, i: int) {
    && 0 <= i < |titles|
    && (forall j :: 0 <= j < |titles| ==> scorer(q, titles[j]) <= scorer(q, titles[i]))
    && (forall j :: 0 <= j < i ==> scorer(q, titles[j]) < scorer(q, titles[i]))
  }

  /** `process.extractOne`: the position of the first best-scoring choice. */
  function BestIndex(q: string, titles: seq<string>, scorer: Scorer): (i: nat)
    requires |titles| > 0
    ensures IsFirstMax(q, titles, scorer, i)
  {
    if |titles| == 1 then 0
    else
      var b := BestIndex(q, titles[..|titles| - 1], scorer);
      if scorer(q, titles[|titles| - 1]) > scorer(q, titles[b]) then |titles| - 1 else b
  }

  /** There is only one first best position. */
  lemma FirstMaxUnique(q: string, titles: seq<string>, scorer: Scorer, i: int, j: int)
    requires IsFirstMax(q, titles, scorer, i) && IsFirstMax(q, titles, scorer, j)
    ensures i == j
  {
    assert scorer(q, titles[i]) == scorer(q, titles[j]);
  }

  /** Some catalog key reaches `bar` under `scorer`. */
  ghost predicate SomeReaches(q: string, titles: seq<string>, scorer: Scorer, bar: real) {
    exists k :: k in titles && scorer(q, k) >= bar
  }

  /** The match for the key at position `i` of the catalog, tagged `tier`. */
  function MatchAt(ix: Index, i: nat, score: Score, tier: Tier): Match
    requires ix.Valid() && i < |ix.titles|
  {
    Match(ix.titleMap[ix.titles[i]], ix.slugMap[ix.titles[i]], score, tier)
  }

  /**
   * `fuzzy_match(guess, titles, title_map, slug_map, threshold)`: the best
   * token-set key if it reaches `threshold`; failing that, the best
   * partial-ratio key if it reaches 90; otherwise no match.
   */
  function FuzzyMatch(guess: string, ix: Index, tokenSet: Scorer, partial: Scorer, threshold: real): (r: MatchResult)
    requires ix.Valid()
    ensures r.EmptyCatalog? <==> |ix.titles| == 0
    ensures var g := Normalize(Text(guess));
      (r.Found? && r.m.tier == TokenSetRatio) <==> SomeReaches(g, ix.titles, tokenSet, threshold)
    ensures var g := Normalize(Text(guess));
      (r.Found? && r.m.tier == PartialRatio)
      <==> !SomeReaches(g, ix.titles, tokenSet, threshold) && SomeReaches(g, ix.titles, partial, PartialBar)
    ensures var g := Normalize(Text(guess));
      r.Found? && r.m.tier == TokenSetRatio ==>
        exists i :: IsFirstMax(g, ix.titles, tokenSet, i)
          && r.m == MatchAt(ix, i, tokenSet(g, ix.titles[i]), TokenSetRatio)
    ensures var g := Normalize(Text(guess));
      r.Found? && r.m.tier == PartialRatio ==>
        exists i :: IsFirstMax(g, ix.titles, partial, i)
          && r.m == MatchAt(ix, i, partial(g, ix.titles[i]), PartialRatio)
    ensures r.Found? ==> r.m.score >= if r.m.tier == TokenSetRatio then threshold else PartialBar
  {
    var g := Normalize(Text(guess));
    if |ix.titles| == 0 then EmptyCatalog
    else
      var i := BestIndex(g, ix.titles, tokenSet);
      if tokenSet(g, ix.titles[i]) >= threshold then
        Found(MatchAt(ix, i, tokenSet(g, ix.titles[i]), TokenSetRatio))
      else
        var j := BestIndex(g, ix.titles, partial);
        if partial(g, ix.titles[j]) >= PartialBar then
          Found(MatchAt(ix, j, partial(g, ix.titles[j]), PartialRatio))
        else NoMatch
  }

  /**
   * When the token-set tier succeeds, the partial-ratio scorer is never
   * consulted: any other partial scorer gives the same result.
   */
  lemma PartialNotConsulted(guess: string, ix: Index, tokenSet: Scorer, partial: Scorer, other: Scorer, threshold: real)
    requires ix.Valid()
    requires SomeReaches(Normalize(Text(guess)), ix.titles, tokenSet, threshold)
    ensures FuzzyMatch(guess, ix, tokenSet, other, threshold) == FuzzyMatch(guess, ix, tokenSet, partial, threshold)
  {
    var g := Normalize(Text(guess));
    var i := BestIndex(g, ix.titles, tokenSet);
    var k :| k in ix.titles && tokenSet(g, k) >= threshold;
    assert tokenSet(g, ix.titles[i]) >= threshold;
  }

  /**
   * The ranking `process.extract` sorts by: a higher score first, and
   * between equal scores the earlier catalog position first.
   */
  predicate Beats(q: string, titles: seq<string>, scorer: Scorer, i: nat, j: nat) {
    && i < |titles| && j < |titles|
    && (|| scorer(q, titles[i]) > scorer(q, titles[j])
        || (scorer(q, titles[i]) == scorer(q, titles[j]) && i < j))
  }

  predicate Distinct(s: seq<nat>) {
    forall p, p' :: 0 <= p < p' < |s| ==> s[p] != s[p']
  }

  function Min(a: int, b: int): int { if a < b then a else b }

  /** The positions 0 .. n-1 in order. */
  function Range(n: nat): (r: seq<nat>)
    ensures |r| == n && Distinct(r)
    ensures forall c :: c in r <==> 0 <= c < n
  {
    if n == 0 then [] else
      var r := Range(n - 1);
      assert forall c :: c in r + [n - 1] <==> c in r || c == n - 1;
      assert n - 1 !in r;
      r + [n - 1]
  }

  /** The best-ranked of the candidate positions `cands`. */
  function BestOf(q: string, titles: seq<string>, scorer: Scorer, cands: seq<nat>): (b: nat)
    requires |cands| > 0 && forall c :: c in cands ==> c < |titles|
    ensures b in cands
    ensures forall c :: c in cands && c != b ==> Beats(q, titles, scorer, b, c)
  {
    if |cands| == 1 then cands[0]
    else
      assert forall c :: c in cands[1..] ==> c in cands;
      var b := BestOf(q, titles, scorer, cands[1..]);
      assert forall c :: c in cands ==> c == cands[0] || c in cands[1..];
      if Beats(q, titles, scorer, cands[0], b) then cands[0] else b
  }

  /** `s` without `x`. */
  function Remove(s: seq<nat>, x: nat): (r: seq<nat>)
    ensures forall c :: c in r <==> c in s && c != x
    ensures Distinct(s) ==> Distinct(r) && |r| == if x in s then |s| - 1 else |s|
  {
    if s == [] then []
    else if s[0] == x then Remove(s[1..], x)
    else
      assert Distinct(s) ==> Distinct(s[1..]) && s[0] !in s[1..];
      [s[0]] + Remove(s[1..], x)
  }

  /** The `k` best-ranked of `cands`, best first, by repeated selection. */
  function Select(q: string, titles: seq<string>, scorer: Scorer, cands: seq<nat>, k: nat): (r: seq<nat>)
    requires Distinct(cands) && forall c :: c in cands ==> c < |titles|
    ensures |r| == Min(k, |cands|) && Distinct(r)
    ensures forall c :: c in r ==> c in cands
    ensures forall p, p' :: 0 <= p < p' < |r| ==> Beats(q, titles, scorer, r[p], r[p'])
    ensures forall c, p :: c in cands && c !in r && 0 <= p < |r| ==> Beats(q, titles, scorer, r[p], c)
    decreases k
  {
    if k == 0 || cands == [] then []
    else
      var b := BestOf(q, titles, scorer, cands);
      [b] + Select(q, titles, scorer, Remove(cands, b), k - 1)
  }

  /**
   * `process.extract(q, titles, scorer=..., limit=k)`: the positions of
   * the `k` best choices (all of them if there are fewer), in ranking
   * order; every choice left out ranks below every choice kept.
   */
  function TopK(q: string, titles: seq<string>, scorer: Scorer, k: nat): (r: seq<nat>)
    ensures |r| == Min(k, |titles|) && Distinct(r)
    ensures forall p :: 0 <= p < |r| ==> r[p] < |titles|
    ensures forall p, p' :: 0 <= p < p' < |r| ==> Beats(q, titles, scorer, r[p], r[p'])
    ensures forall i, p :: 0 <= i < |titles| && i !in r && 0 <= p < |r| ==> Beats(q, titles, scorer, r[p], i)
  {
    var all := Range(|titles|);
    var r := Select(q, titles, scorer, all, k);
    assert forall p :: 0 <= p < |r| ==> r[p] in all;
    assert forall i :: 0 <= i < |titles| ==> i in all;
    r
  }
}
