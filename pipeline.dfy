/**
 * The matching loop (lines 76-95): every translated row is either routed
 * to `unmatched` (its translation failed, or neither tier accepted a
 * catalog key, or the accepted key's slug is falsy) or turned into an
 * automatic match. An empty catalog makes `fuzzy_match` raise for the
 * first row that reaches it, and the whole step fails.
 */
module Pipeline {
  import opened Wrappers
  import opened Tables
  import opened Catalog
  import opened Matcher
  import opened Translate

  /** One entry of `matches`. */
  datatype AutoMatch = AutoMatch(from: string, to: Cell, title: Cell, score: Score, tier: Tier)

  /** What the loop does with one row. */
  datatype Outcome = Auto(m: AutoMatch) | Unmatched | Crash

  /** The TypeError of unpacking `extractOne`'s None. */
  datatype MatchError = CannotUnpackNone

  datatype Partition = Partition(matches: seq<AutoMatch>, unmatched: seq<RedirectRow>)

  /** Lines 80-95 for one row. */
  function Classify(row: RedirectRow, ix: Index, tokenSet: Scorer, partial: Scorer): (o: Outcome)
    requires ix.Valid()
    ensures row.guess == FailureMarker ==> o == Unmatched
    ensures o.Crash? <==> row.guess != FailureMarker && |ix.titles| == 0
    ensures o.Auto? ==> (o.m.from == row.from && Truthy(o.m.to)
      && FuzzyMatch(row.guess, ix, tokenSet, partial, DefaultThreshold)
        == Found(Match(o.m.title, o.m.to, o.m.score, o.m.tier)))
    ensures row.guess != FailureMarker ==> var f := FuzzyMatch(row.guess, ix, tokenSet, partial, DefaultThreshold);
      && (f.Found? && Truthy(f.m.slug) ==> o == Auto(AutoMatch(row.from, f.m.slug, f.m.title, f.m.score, f.m.tier)))
      && (f.NoMatch? || (f.Found? && !Truthy(f.m.slug)) ==> o == Unmatched)
  {
    if row.guess == FailureMarker then Unmatched
    else
      match FuzzyMatch(row.guess, ix, tokenSet, partial, DefaultThreshold)
      case EmptyCatalog => Crash
      case NoMatch => Unmatched
      case Found(m) =>
        if Truthy(m.slug) then Auto(AutoMatch(row.from, m.slug, m.title, m.score, m.tier)) else Unmatched
  }

  function Outcomes(rows: seq<RedirectRow>, ix: Index, tokenSet: Scorer, partial: Scorer): (os: seq<Outcome>)
    requires ix.Valid()
    ensures |os| == |rows|
  {
    if rows == [] then []
    else Outcomes(rows[..|rows| - 1], ix, tokenSet, partial) + [Classify(rows[|rows| - 1], ix, tokenSet, partial)]
  }

  /** The outcome at position `i` is that of row `i`. */
  lemma {:induction false} OutcomeAt(rows: seq<RedirectRow>, ix: Index, tokenSet: Scorer, partial: Scorer, i: nat)
    requires ix.Valid() && i < |rows|
    ensures Outcomes(rows, ix, tokenSet, partial)[i] == Classify(rows[i], ix, tokenSet, partial)
  {
    var n := |rows| - 1;
    if i < n {
      OutcomeAt(rows[..n], ix, tokenSet, partial, i);
    }
  }

  lemma OutcomesSnoc(rows: seq<RedirectRow>, ix: Index, tokenSet: Scorer, partial: Scorer, i: nat)
    requires ix.Valid() && i < |rows|
    ensures Outcomes(rows[..i + 1], ix, tokenSet, partial)
      == Outcomes(rows[..i], ix, tokenSet, partial) + [Classify(rows[i], ix, tokenSet, partial)]
  {
    assert rows[..i + 1][..i] == rows[..i];
  }

  /** The automatic matches, in row order. */
  function MatchesOf(os: seq<Outcome>): seq<AutoMatch> {
    if os == [] then []
    else MatchesOf(os[..|os| - 1]) + (if os[|os| - 1].Auto? then [os[|os| - 1].m] else [])
  }

  /** The rows routed to `unmatched`, in row order. */
  function UnmatchedOf(rows: seq<RedirectRow>, os: seq<Outcome>): seq<RedirectRow>
    requires |rows| == |os|
  {
    if os == [] then []
    else
      var n := |os| - 1;
      UnmatchedOf(rows[..n], os[..n]) + (if os[n].Unmatched? then [rows[n]] else [])
  }

  /** The positions of the rows whose outcome satisfies `auto ==> Auto?`, `!auto ==> Unmatched?`. */
  function Positions(os: seq<Outcome>, auto: bool): seq<nat> {
    if os == [] then []
    else
      var n := |os| - 1;
      Positions(os[..n], auto) + (if (if auto then os[n].Auto? else os[n].Unmatched?) then [n] else [])
  }

  lemma MatchesOfSnoc(os: seq<Outcome>, o: Outcome)
    ensures MatchesOf(os + [o]) == MatchesOf(os) + (if o.Auto? then [o.m] else [])
  {
    assert (os + [o])[..|os|] == os;
  }

  lemma UnmatchedOfStep(rows: seq<RedirectRow>, i: nat, before: seq<Outcome>, o: Outcome)
    requires i < |rows| && |before| == i
    ensures UnmatchedOf(rows[..i + 1], before + [o]) == UnmatchedOf(rows[..i], before) + (if o.Unmatched? then [rows[i]] else [])
  {
    assert rows[..i + 1][..i] == rows[..i];
    assert (before + [o])[..i] == before;
  }

  predicate Increasing(s: seq<nat>) {
    forall p, p' :: 0 <= p < p' < |s| ==> s[p] < s[p']
  }

  lemma {:induction false} PositionsShape(os: seq<Outcome>, auto: bool)
    ensures var ps := Positions(os, auto);
      && Increasing(ps)
      && (forall p :: 0 <= p < |ps| ==> ps[p] < |os|)
      && (forall i :: 0 <= i < |os| ==> (i in ps <==> if auto then os[i].Auto? else os[i].Unmatched?))
  {
    if os != [] {
      var n := |os| - 1;
      PositionsShape(os[..n], auto);
      assert forall i :: 0 <= i < n ==> os[..n][i] == os[i];
    }
  }

  /**
   * The automatic matches are the outcomes of the `Auto` rows, in
   * order: the p-th match comes from the row at the p-th `Auto` position.
   */
  lemma {:induction false} MatchesInOrder(os: seq<Outcome>)
    ensures |MatchesOf(os)| == |Positions(os, true)|
    ensures forall p :: 0 <= p < |MatchesOf(os)| ==>
      && Positions(os, true)[p] < |os|
      && os[Positions(os, true)[p]].Auto?
      && MatchesOf(os)[p] == os[Positions(os, true)[p]].m
  {
    PositionsShape(os, true);
    if os != [] {
      var n := |os| - 1;
      MatchesInOrder(os[..n]);
      PositionsShape(os[..n], true);
    }
  }

  /** The unmatched rows are the rows at the `Unmatched` positions, in order. */
  lemma {:induction false} UnmatchedInOrder(rows: seq<RedirectRow>, os: seq<Outcome>)
    requires |rows| == |os|
    ensures |UnmatchedOf(rows, os)| == |Positions(os, false)|
    ensures forall p :: 0 <= p < |UnmatchedOf(rows, os)| ==>
      Positions(os, false)[p] < |rows| && UnmatchedOf(rows, os)[p] == rows[Positions(os, false)[p]]
  {
    PositionsShape(os, false);
    if os != [] {
      var n := |os| - 1;
      UnmatchedInOrder(rows[..n], os[..n]);
      PositionsShape(os[..n], false);
    }
  }

  /** With no crash, every row lands in exactly one of the two lists. */
  lemma {:induction false} PartitionSizes(rows: seq<RedirectRow>, os: seq<Outcome>)
    requires |rows| == |os|
    requires forall i :: 0 <= i < |os| ==> !os[i].Crash?
    ensures |MatchesOf(os)| + |UnmatchedOf(rows, os)| == |rows|
  {
    if os != [] {
      var n := |os| - 1;
      PartitionSizes(rows[..n], os[..n]);
    }
  }

  /**
   * When the matching step does not fail: the two lists together hold
   * as many entries as there are rows, every row is at exactly one
   * position of the two, and every failed translation is unmatched.
   */
  lemma Partitioned(rows: seq<RedirectRow>, ix: Index, tokenSet: Scorer, partial: Scorer)
    requires ix.Valid()
    requires |ix.titles| > 0 || forall i :: 0 <= i < |rows| ==> rows[i].guess == FailureMarker
    ensures var os := Outcomes(rows, ix, tokenSet, partial);
      && |MatchesOf(os)| + |UnmatchedOf(rows, os)| == |rows|
      && (forall i :: 0 <= i < |rows| ==> ((i in Positions(os, true)) <==> !(i in Positions(os, false))))
      && (forall i :: 0 <= i < |rows| && rows[i].guess == FailureMarker ==> i in Positions(os, false))
  {
    var os := Outcomes(rows, ix, tokenSet, partial);
    forall i | 0 <= i < |rows| ensures os[i] == Classify(rows[i], ix, tokenSet, partial) {
      OutcomeAt(rows, ix, tokenSet, partial, i);
    }
    PartitionSizes(rows, os);
    PositionsShape(os, true);
    PositionsShape(os, false);
  }

  /**
   * Lines 76-95: the matching loop, and the TypeError that an empty
   * catalog raises for the first row that is not a failed translation.
   */
  method MatchRows(rows: seq<RedirectRow>, ix: Index, tokenSet: Scorer, partial: Scorer)
    returns (r: Result<Partition, MatchError>)
    requires ix.Valid()
    ensures r.Failure? <==> |ix.titles| == 0 && exists i :: 0 <= i < |rows| && rows[i].guess != FailureMarker
    ensures r.Success? ==> var os := Outcomes(rows, ix, tokenSet, partial);
      r.value == Partition(MatchesOf(os), UnmatchedOf(rows, os))
  {
    var matches: seq<AutoMatch> := [];
    var unmatched: seq<RedirectRow> := [];
    var i := 0;
    ghost var os: seq<Outcome> := [];
    assert rows[..0] == [];
    while i < |rows|
      invariant 0 <= i <= |rows| && |os| == i
      invariant os == Outcomes(rows[..i], ix, tokenSet, partial)
      invariant |ix.titles| == 0 ==> forall j :: 0 <= j < i ==> rows[j].guess == FailureMarker
      invariant matches == MatchesOf(os)
      invariant unmatched == UnmatchedOf(rows[..i], os)
    {
      ghost var o := Classify(rows[i], ix, tokenSet, partial);
      OutcomesSnoc(rows, ix, tokenSet, partial, i);
      MatchesOfSnoc(os, o);
      UnmatchedOfStep(rows, i, os, o);
      var row := rows[i];
      if row.guess == FailureMarker {
        unmatched := unmatched + [row];
      } else {
        var result := FuzzyMatch(row.guess, ix, tokenSet, partial, DefaultThreshold);
        if result.EmptyCatalog? {
          return Failure(CannotUnpackNone);
        }
        if result.Found? && Truthy(result.m.slug) {
          matches := matches + [AutoMatch(row.from, result.m.slug, result.m.title, result.m.score, result.m.tier)];
        } else {
          unmatched := unmatched + [row];
        }
      }
      os := os + [o];
      i := i + 1;
    }
    assert rows[..i] == rows;
    return Success(Partition(matches, unmatched));
  }

  /**
   * A row whose translation raised is unmatched whatever the catalog
   * holds, and the matcher is never asked about it.
   */
  lemma FailedTranslationUnmatched(i: nat, url: string, translate: (nat, Option<string>) -> Translation,
                                   ix: Index, tokenSet: Scorer, partial: Scorer)
    requires ix.Valid()
    requires translate(i, CleanSlug(ExtractFragment(url))).Raised?
    ensures Classify(RowFor(i, url, translate), ix, tokenSet, partial) == Unmatched
  {
  }
}
