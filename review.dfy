/**
 * The manual review step (lines 104-142). The rows left unmatched by the
 * automatic pass are shown one at a time; for the current row the three
 * best catalogue titles under token-set scoring are offered as
 * "title → slug (score: s)" options next to a skip option, and "Save & Next"
 * records the slug parsed back out of the chosen option and moves on.
 */
module Review {
  import opened Wrappers
  import opened Tables
  import opened Normalizer
  import opened Catalog
  import opened Matcher

  const Arrow: char := '\U{2192}'
  const SkipLabel: string := "\U{274C} Skip this one"

  /** `limit=3` at line 122. */
  const Limit: nat := 3

  /** `s.split(sep)[-1]`: what follows the last `sep`, or all of `s` when there is none. */
  function AfterLast(s: string, sep: char): (r: string)
    ensures sep !in r
    ensures |r| <= |s| && r == s[|s| - |r|..]
    ensures |r| < |s| ==> s[|s| - |r| - 1] == sep
  {
    if s == [] then []
    else if s[|s| - 1] == sep then []
    else AfterLast(s[..|s| - 1], sep) + [s[|s| - 1]]
  }

  /** `s.split(sep)[0]`: what precedes the first `sep`, or all of `s` when there is none. */
  function BeforeFirst(s: string, sep: char): (r: string)
    ensures sep !in r
    ensures |r| <= |s| && r == s[..|r|]
    ensures |r| < |s| ==> s[|r|] == sep
  {
    if s == [] then []
    else if s[0] == sep then []
    else [s[0]] + BeforeFirst(s[1..], sep)
  }

  /** Line 134: the slug recovered from the text of a chosen option. */
  function ParseSlug(choice: string): string {
    Strip(BeforeFirst(AfterLast(choice, Arrow), '('))
  }

  /** Line 128: the text of one option. */
  function BuildOption(title: Cell, slug: Cell, scoreText: string): string {
    Display(title) + [' ', Arrow, ' '] + Display(slug) + " (score: " + scoreText + ")"
  }

  lemma AfterLastOfJoin(a: string, sep: char, b: string)
    requires sep !in b
    ensures AfterLast(a + [sep] + b, sep) == b
  {
    var s := a + [sep] + b;
    var r := AfterLast(s, sep);
    assert s[|s| - |b| - 1] == sep;
    assert s[|s| - |b|..] == b;
  }

  lemma BeforeFirstOfJoin(a: string, sep: char, b: string)
    requires sep !in a
    ensures BeforeFirst(a + [sep] + b, sep) == a
  {
    var s := a + [sep] + b;
    var r := BeforeFirst(s, sep);
    assert s[|a|] == sep;
    assert s[..|a|] == a;
  }

  /** `t` has no whitespace at either end. */
  predicate Trimmed(t: string) {
    t == [] || (!IsSpace(t[0]) && !IsSpace(t[|t| - 1]))
  }

  lemma StripPadded(t: string)
    requires Trimmed(t)
    ensures Strip([' '] + t + [' ']) == t
  {
    var u := t + [' '];
    var s := [' '] + u;
    assert [' '] + t + [' '] == s;
    assert s[1..] == u;
    assert DropSpaces(s) == DropSpaces(u);
    if t == [] {
      assert u[1..] == [];
      assert DropSpaces(u) == [];
    } else {
      assert u[0] == t[0];
      assert DropSpaces(u) == u;
      assert u[..|u| - 1] == t;
      assert DropTrailingSpaces(u) == DropTrailingSpaces(t);
      assert DropTrailingSpaces(t) == t;
    }
  }

  /**
   * Parsing a built option gives back the slug it shows, whatever the
   * title, as long as the slug holds no arrow or parenthesis and no
   * surrounding whitespace, and the score text holds no arrow.
   */
  lemma ParseBuildRoundTrip(title: Cell, slug: Cell, scoreText: string)
    requires Arrow !in Display(slug) && '(' !in Display(slug) && Trimmed(Display(slug))
    requires Arrow !in scoreText
    ensures ParseSlug(BuildOption(title, slug, scoreText)) == Display(slug)
  {
    var d := Display(slug);
    var tail := [' '] + d + [' '];
    var rest := "score: " + scoreText + ")";
    var after := tail + ['('] + rest;
    OptionShape(title, slug, scoreText);
    NoArrowAfter(d, scoreText);
    AfterLastOfJoin(Display(title) + [' '], Arrow, after);
    BeforeFirstOfJoin(tail, '(', rest);
    StripPadded(d);
  }

  lemma OptionShape(title: Cell, slug: Cell, scoreText: string)
    ensures BuildOption(title, slug, scoreText)
      == (Display(title) + [' ']) + [Arrow] + (([' '] + Display(slug) + [' ']) + ['('] + ("score: " + scoreText + ")"))
  {
    var ds, dt := Display(slug), Display(title);
    var head := dt + [' '] + [Arrow];
    assert dt + [' ', Arrow, ' '] == head + [' '];
    var mid := [' '] + ds + [' '] + ['('];
    assert " (score: " == [' ', '('] + "score: ";
    assert head + [' '] + ds + " (score: " == head + mid + "score: ";
    var rest := "score: " + scoreText + ")";
    assert head + mid + "score: " + scoreText + ")" == head + (mid + rest);
  }

  lemma NoArrowAfter(d: string, scoreText: string)
    requires Arrow !in d && '(' !in d && Arrow !in scoreText
    ensures Arrow !in ([' '] + d + [' ']) + ['('] + ("score: " + scoreText + ")")
    ensures '(' !in [' '] + d + [' ']
  {
    assert Arrow !in "score: ";
  }

  /** Every option differs from the skip label, so comparing the chosen text with it tells them apart. */
  lemma OptionIsNotSkip(title: Cell, slug: Cell, scoreText: string)
    ensures BuildOption(title, slug, scoreText) != SkipLabel
  {
    var o := BuildOption(title, slug, scoreText);
    assert o[|Display(title)| + 1] == Arrow;
    assert Arrow !in SkipLabel;
  }

  /** Line 122: the positions of the catalogue titles offered for a row. */
  function Candidates(q: string, ix: Index, tokenSet: Scorer): (r: seq<nat>)
    ensures |r| == Min(Limit, |ix.titles|)
    ensures forall p :: 0 <= p < |r| ==> r[p] < |ix.titles|
  {
    TopK(q, ix.titles, tokenSet, Limit)
  }

  /** Lines 126-128 for one candidate position `c`. */
  function OptionFor(ix: Index, q: string, tokenSet: Scorer, format: Score -> string, c: nat): string
    requires ix.Valid() && c < |ix.titles|
  {
    var t := ix.titles[c];
    BuildOption(ix.titleMap[t], ix.slugMap[t], format(tokenSet(q, t)))
  }

  /** Lines 124-128: one option per candidate, in ranking order. */
  method BuildOptions(ix: Index, q: string, tokenSet: Scorer, format: Score -> string, cands: seq<nat>)
    returns (options: seq<string>)
    requires ix.Valid()
    requires forall p :: 0 <= p < |cands| ==> cands[p] < |ix.titles|
    ensures |options| == |cands|
    ensures forall p :: 0 <= p < |cands| ==> options[p] == OptionFor(ix, q, tokenSet, format, cands[p])
  {
    options := [];
    for p := 0 to |cands|
      invariant |options| == p
      invariant forall p' :: 0 <= p' < p ==> options[p'] == OptionFor(ix, q, tokenSet, format, cands[p'])
    {
      options := options + [OptionFor(ix, q, tokenSet, format, cands[p])];
    }
  }

  /** The error line 119 raises. */
  datatype ReviewError = KeyError(column: string)

  /** Line 119 as written: the rows have no "redirect_from" column, so the lookup always raises. */
  function ReviewSourceAsWritten(row: RedirectRow): (r: Result<string, ReviewError>)
    ensures r.Failure?
  {
    match Column(row, "redirect_from")
    case Some(c) => Success(Display(c))
    case None => Failure(KeyError("redirect_from"))
  }

  /** Line 119 corrected: the source URL is the row's "Redirect from" value. */
  function ReviewSource(row: RedirectRow): (r: string)
    ensures Column(row, "Redirect from") == Some(Text(r))
  {
    row.from
  }

  /** Line 118: the query the candidates are ranked against. */
  function ReviewQuery(row: RedirectRow): string {
    Normalize(Text(row.guess))
  }

  /**
   * What "Save & Next" records for the row with URL `source` and query `q`
   * when option `choice` is selected (the skip option has position
   * |options|): nothing for a skip, else the source and the slug parsed
   * from the chosen option.
   */
  function Decision(source: string, q: string, ix: Index, tokenSet: Scorer, format: Score -> string, choice: nat): (r: seq<Redirect>)
    requires ix.Valid()
    ensures |r| <= 1 && (r != [] <==> choice < |Candidates(q, ix, tokenSet)|)
    ensures forall k :: 0 <= k < |r| ==> r[k].from == source
  {
    var cands := Candidates(q, ix, tokenSet);
    if choice < |cands| then
      [Redirect(source, Text(ParseSlug(OptionFor(ix, q, tokenSet, format, cands[choice]))))]
    else []
  }

  /**
   * A non-skip decision redirects the source to the slug of the chosen
   * catalogue product, when that slug survives the round trip through
   * the option text.
   */
  lemma DecisionTargetsCandidate(source: string, q: string, ix: Index, tokenSet: Scorer, format: Score -> string, choice: nat)
    requires ix.Valid()
    requires choice < |Candidates(q, ix, tokenSet)|
    requires var t := ix.titles[Candidates(q, ix, tokenSet)[choice]];
      && Arrow !in Display(ix.slugMap[t]) && '(' !in Display(ix.slugMap[t]) && Trimmed(Display(ix.slugMap[t]))
      && Arrow !in format(tokenSet(q, t))
    ensures Decision(source, q, ix, tokenSet, format, choice)
      == [Redirect(source, Text(Display(ix.slugMap[ix.titles[Candidates(q, ix, tokenSet)[choice]]])))]
  {
    var t := ix.titles[Candidates(q, ix, tokenSet)[choice]];
    ParseBuildRoundTrip(ix.titleMap[t], ix.slugMap[t], format(tokenSet(q, t)));
  }

  /**
   * Lines 117-138 for one row: build the options, read the chosen text
   * (`choice` indexes the options followed by the skip label) and, unless
   * it is the skip label, parse the slug out of it.
   */
  method Decide(row: RedirectRow, ix: Index, tokenSet: Scorer, format: Score -> string, choice: nat)
    returns (d: seq<Redirect>)
    requires ix.Valid()
    requires choice <= |Candidates(ReviewQuery(row), ix, tokenSet)|
    ensures d == Decision(ReviewSource(row), ReviewQuery(row), ix, tokenSet, format, choice)
  {
    var guess := ReviewQuery(row);
    var source := ReviewSource(row);
    var cands := Candidates(guess, ix, tokenSet);
    var options := BuildOptions(ix, guess, tokenSet, format, cands);
    var choiceText := (options + [SkipLabel])[choice];
    if choice < |options| {
      var t := ix.titles[cands[choice]];
      OptionIsNotSkip(ix.titleMap[t], ix.slugMap[t], format(tokenSet(guess, t)));
    }
    d := [];
    if choiceText != SkipLabel {
      var slug := ParseSlug(choiceText);
      d := [Redirect(source, Text(slug))];
    }
  }

  /**
   * The review cursor: `manual_index` and `manual_results` of the session
   * state, over the queue of unmatched rows (which every rerun derives
   * again, identically, from the stored translation).
   */
  class ReviewSession {
    const queue: seq<RedirectRow>
    var index: nat
    var results: seq<Redirect>
    /** For each recorded result, the queue position it was decided at. */
    ghost var decidedAt: seq<nat>

    /**
     * The cursor never passes the end of the queue; results are recorded
     * in queue order, at most one per reviewed row, each for the source
     * URL of its row.
     */
    ghost predicate Valid()
      reads this
    {
      && index <= |queue|
      && |decidedAt| == |results| <= index
      && (forall k :: 0 <= k < |decidedAt| ==> decidedAt[k] < index)
      && (forall k, k' :: 0 <= k < k' < |decidedAt| ==> decidedAt[k] < decidedAt[k'])
      && (forall k :: 0 <= k < |results| ==> results[k].from == queue[decidedAt[k]].from)
    }

    /** Lines 29-30 and 111-112: an empty result list and the cursor at the first row. */
    constructor(queue: seq<RedirectRow>)
      ensures this.queue == queue && index == 0 && results == []
      ensures Valid()
    {
      this.queue := queue;
      index := 0;
      results := [];
      decidedAt := [];
    }

    /**
     * Lines 114-141 with line 119 corrected: while rows remain, record the
     * decision for the current row and advance the cursor; once the queue
     * is done nothing changes.
     */
    method SaveAndNext(ix: Index, tokenSet: Scorer, format: Score -> string, choice: nat)
      requires Valid() && ix.Valid()
      requires index < |queue| ==> choice <= |Candidates(ReviewQuery(queue[index]), ix, tokenSet)|
      modifies this
      ensures Valid()
      ensures old(index) < |queue| ==>
        && index == old(index) + 1
        && results == old(results)
          + Decision(queue[old(index)].from, ReviewQuery(queue[old(index)]), ix, tokenSet, format, choice)
      ensures old(index) >= |queue| ==> index == old(index) && results == old(results)
    {
      if index < |queue| {
        var d := Decide(queue[index], ix, tokenSet, format, choice);
        Record(d);
      }
    }

    /** Lines 135-139: append the decision for the current row and move the cursor past it. */
    method Record(d: seq<Redirect>)
      requires Valid() && index < |queue|
      requires |d| <= 1 && forall k :: 0 <= k < |d| ==> d[k].from == queue[index].from
      modifies this
      ensures Valid()
      ensures index == old(index) + 1 && results == old(results) + d
    {
      if d != [] {
        decidedAt := decidedAt + [index];
      }
      results := results + d;
      index := index + 1;
    }
  }
}
