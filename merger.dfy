/**
 * The redirect merger (lines 148-151): the automatic pairs followed by
 * the manual ones, with duplicate source URLs dropped, keeping the
 * first occurrence (`drop_duplicates(subset=["Redirect from"])`, whose
 * default is keep='first'). Automatic matches therefore win over manual
 * decisions for the same URL.
 */
module Merger {
  import opened Wrappers
  import opened Tables
  import opened Pipeline

  /** The values of the "Redirect from" column. */
  function SourceSet(s: seq<Redirect>): set<string> {
    if s == [] then {} else SourceSet(s[..|s| - 1]) + {s[|s| - 1].from}
  }

  lemma {:induction false} SourceSetMembers(s: seq<Redirect>)
    ensures forall i :: 0 <= i < |s| ==> s[i].from in SourceSet(s)
    ensures forall k :: k in SourceSet(s) ==> exists i :: 0 <= i < |s| && s[i].from == k
  {
    if s != [] {
      var n := |s| - 1;
      SourceSetMembers(s[..n]);
      assert forall i :: 0 <= i < n ==> s[..n][i] == s[i];
    }
  }

  predicate UniqueSources(s: seq<Redirect>) {
    forall p, q :: 0 <= p < q < |s| ==> s[p].from != s[q].from
  }

  /** Row `i` is the first row of `s` with its source URL. */
  ghost predicate IsFirst(s: seq<Redirect>, i: int) {
    0 <= i < |s| && forall j :: 0 <= j < i ==> s[j].from != s[i].from
  }

  /** `drop_duplicates(subset=["Redirect from"])`, keeping the first row of each source. */
  function Dedup(s: seq<Redirect>): seq<Redirect> {
    if s == [] then []
    else
      var d := Dedup(s[..|s| - 1]);
      var x := s[|s| - 1];
      if x.from in SourceSet(d) then d else d + [x]
  }

  /** The rows left have distinct source URLs, and no source URL is lost. */
  lemma {:induction false} DedupUnique(s: seq<Redirect>)
    ensures UniqueSources(Dedup(s))
    ensures SourceSet(Dedup(s)) == SourceSet(s)
  {
    if s != [] {
      var n := |s| - 1;
      var d := Dedup(s[..n]);
      DedupUnique(s[..n]);
      var x := s[n];
      if x.from !in SourceSet(d) {
        SourceSetMembers(d);
        assert (d + [x])[..|d|] == d;
        assert Dedup(s) == d + [x];
      }
    }
  }

  /** The positions of `s` that `Dedup` keeps. */
  ghost function Kept(s: seq<Redirect>): seq<nat> {
    if s == [] then []
    else
      var n := |s| - 1;
      Kept(s[..n]) + (if s[n].from in SourceSet(Dedup(s[..n])) then [] else [n])
  }

  /** The last row of `s` is kept exactly when it is the first of its source URL. */
  lemma LastKeptIffFirst(s: seq<Redirect>)
    requires s != []
    ensures var n := |s| - 1;
      s[n].from in SourceSet(Dedup(s[..n])) <==> !IsFirst(s, n)
  {
    var n := |s| - 1;
    var init := s[..n];
    DedupUnique(init);
    SourceSetMembers(init);
    assert forall j :: 0 <= j < n ==> init[j] == s[j];
  }

  /** `d` is the subsequence of `s` at the increasing positions `k`. */
  ghost predicate Embeds(s: seq<Redirect>, d: seq<Redirect>, k: seq<nat>) {
    && |k| == |d|
    && (forall p, q :: 0 <= p < q < |k| ==> k[p] < k[q])
    && (forall p :: 0 <= p < |k| ==> k[p] < |s| && d[p] == s[k[p]])
  }

  /** Appending a row to `s` keeps an embedding, and lets it take the new row. */
  lemma EmbedsSnoc(s: seq<Redirect>, d: seq<Redirect>, k: seq<nat>)
    requires s != [] && Embeds(s[..|s| - 1], d, k)
    ensures Embeds(s, d, k)
    ensures Embeds(s, d + [s[|s| - 1]], k + [|s| - 1])
  {
    var n := |s| - 1;
    assert forall j :: 0 <= j < n ==> s[..n][j] == s[j];
  }

  /**
   * `Dedup(s)` is a subsequence of `s`: its p-th row is the row at the
   * p-th kept position, and the kept positions increase.
   */
  lemma {:induction false} DedupSubsequence(s: seq<Redirect>)
    ensures Embeds(s, Dedup(s), Kept(s))
  {
    if s != [] {
      var n := |s| - 1;
      var init := s[..n];
      DedupSubsequence(init);
      var d := Dedup(init);
      EmbedsSnoc(s, d, Kept(init));
      if s[n].from in SourceSet(d) {
        assert Dedup(s) == d && Kept(s) == Kept(init);
      } else {
        assert Dedup(s) == d + [s[n]] && Kept(s) == Kept(init) + [n];
      }
    }
  }

  /** The positions `Dedup` keeps are exactly the first rows of their source URLs. */
  lemma {:induction false} KeptIffFirst(s: seq<Redirect>, i: nat)
    requires i < |s|
    ensures i in Kept(s) <==> IsFirst(s, i)
  {
    var n := |s| - 1;
    var init := s[..n];
    var added: seq<nat> := if s[n].from in SourceSet(Dedup(init)) then [] else [n];
    assert Kept(s) == Kept(init) + added;
    assert i in Kept(s) <==> i in Kept(init) || i in added;
    if i < n {
      KeptIffFirst(init, i);
      assert forall j :: 0 <= j <= i ==> init[j] == s[j];
      assert IsFirst(init, i) <==> IsFirst(s, i);
      assert i in Kept(s) <==> i in Kept(init);
    } else {
      LastKeptIffFirst(s);
      DedupSubsequence(init);
      if n in Kept(init) {
        assert false;
      }
      assert i == n && (i in added <==> IsFirst(s, n));
    }
  }

  lemma {:induction false} SourceSetConcat(a: seq<Redirect>, b: seq<Redirect>)
    ensures SourceSet(a + b) == SourceSet(a) + SourceSet(b)
  {
    if b == [] {
      assert a + b == a;
    } else {
      var n := |b| - 1;
      assert (a + b)[..|a| + n] == a + b[..n];
      assert (a + b)[|a| + n] == b[n];
      SourceSetConcat(a, b[..n]);
    }
  }

  /** A first occurrence in `a` stays first once `b` is appended. */
  lemma FirstInPrefix(a: seq<Redirect>, b: seq<Redirect>, i: nat)
    requires IsFirst(a, i)
    ensures IsFirst(a + b, i)
  {
    assert forall j :: 0 <= j <= i ==> (a + b)[j] == a[j];
  }

  /** A first occurrence in `b` whose URL `a` lacks is first in `a + b`. */
  lemma FirstInSuffix(a: seq<Redirect>, b: seq<Redirect>, j: nat)
    requires IsFirst(b, j) && b[j].from !in SourceSet(a)
    ensures IsFirst(a + b, |a| + j)
  {
    SourceSetMembers(a);
    var s := a + b;
    assert s[|a| + j] == b[j];
    forall k | 0 <= k < |a| + j
      ensures s[k].from != s[|a| + j].from
    {
      if k < |a| {
        assert s[k] == a[k];
      } else {
        assert s[k] == b[k - |a|];
      }
    }
  }

  /** `final[["Redirect from", "Redirect to"]]`: the two exported columns of the automatic matches. */
  function Pairs(final: seq<AutoMatch>): (r: seq<Redirect>)
    ensures |r| == |final|
    ensures forall i :: 0 <= i < |final| ==> r[i] == Redirect(final[i].from, final[i].to)
  {
    if final == [] then [] else Pairs(final[..|final| - 1]) + [Redirect(final[|final| - 1].from, final[|final| - 1].to)]
  }

  /**
   * Lines 150-151: the merged redirect table. Every source URL of either
   * input appears in it exactly once.
   */
  function Merge(final: seq<AutoMatch>, manual: seq<Redirect>): (r: seq<Redirect>)
    ensures UniqueSources(r)
    ensures SourceSet(r) == SourceSet(Pairs(final)) + SourceSet(manual)
  {
    SourceSetConcat(Pairs(final), manual);
    DedupUnique(Pairs(final) + manual);
    Dedup(Pairs(final) + manual)
  }

  /** Every merged row is the first row for its URL in the automatic-then-manual order. */
  lemma MergedRowsAreFirsts(final: seq<AutoMatch>, manual: seq<Redirect>, p: nat)
    requires p < |Merge(final, manual)|
    ensures exists i :: IsFirst(Pairs(final) + manual, i) && Merge(final, manual)[p] == (Pairs(final) + manual)[i]
  {
    var s := Pairs(final) + manual;
    DedupSubsequence(s);
    KeptIffFirst(s, Kept(s)[p]);
  }

  /** A row at a first occurrence is in the merged table. */
  lemma FirstIsMerged(final: seq<AutoMatch>, manual: seq<Redirect>, i: nat)
    requires IsFirst(Pairs(final) + manual, i)
    ensures (Pairs(final) + manual)[i] in Merge(final, manual)
  {
    FirstIsKept(Pairs(final) + manual, i);
  }

  /** `Dedup` keeps the row at every first occurrence. */
  lemma FirstIsKept(s: seq<Redirect>, i: nat)
    requires IsFirst(s, i)
    ensures s[i] in Dedup(s)
  {
    KeptIffFirst(s, i);
    DedupSubsequence(s);
    var p :| 0 <= p < |Kept(s)| && Kept(s)[p] == i;
    assert Dedup(s)[p] == s[i];
  }

  /** The row at a first occurrence is kept, and is the only row left for its URL. */
  lemma FirstWins(s: seq<Redirect>, i: nat)
    requires IsFirst(s, i)
    ensures s[i] in Dedup(s)
    ensures forall p :: 0 <= p < |Dedup(s)| && Dedup(s)[p].from == s[i].from ==> Dedup(s)[p] == s[i]
  {
    FirstIsKept(s, i);
    DedupUnique(s);
    UniqueLookup(Dedup(s), s[i]);
  }

  /** In a table with distinct source URLs, a row is the only one for its URL. */
  lemma UniqueLookup(r: seq<Redirect>, x: Redirect)
    requires UniqueSources(r) && x in r
    ensures forall p :: 0 <= p < |r| && r[p].from == x.from ==> r[p] == x
  {
  }

  /**
   * Automatic matches beat manual decisions: the first automatic target
   * for a URL is the target the merged table holds for it.
   */
  lemma AutomaticWins(final: seq<AutoMatch>, manual: seq<Redirect>, i: nat)
    requires i < |final| && forall j :: 0 <= j < i ==> final[j].from != final[i].from
    ensures Redirect(final[i].from, final[i].to) in Merge(final, manual)
    ensures forall p :: 0 <= p < |Merge(final, manual)| && Merge(final, manual)[p].from == final[i].from ==>
      Merge(final, manual)[p].to == final[i].to
  {
    FirstInPrefix(Pairs(final), manual, i);
    FirstIsMerged(final, manual, i);
    UniqueLookup(Merge(final, manual), Redirect(final[i].from, final[i].to));
  }

  /** A manual decision is used for a URL that no automatic match covers, the first one winning. */
  lemma ManualFillsGaps(final: seq<AutoMatch>, manual: seq<Redirect>, j: nat)
    requires IsFirst(manual, j) && manual[j].from !in SourceSet(Pairs(final))
    ensures manual[j] in Merge(final, manual)
    ensures forall p :: 0 <= p < |Merge(final, manual)| && Merge(final, manual)[p].from == manual[j].from ==>
      Merge(final, manual)[p].to == manual[j].to
  {
    var a := Pairs(final);
    var s := a + manual;
    assert IsFirst(s, |a| + j) by { FirstInSuffix(a, manual, j); }
    FirstWins(s, |a| + j);
    assert s[|a| + j] == manual[j];
  }

  /** The failure of line 150 when `final` is empty: pd.DataFrame([]) has no columns to select. */
  datatype MergeError = MissingColumns

  /** Lines 148-151 as written: selecting the two columns of an empty `final` raises KeyError. */
  function MergeAsWritten(final: seq<AutoMatch>, manual: seq<Redirect>): (r: Result<seq<Redirect>, MergeError>)
    ensures r.Failure? <==> final == []
    ensures r.Success? ==> r.value == Merge(final, manual)
  {
    if final == [] then Failure(MissingColumns) else Success(Merge(final, manual))
  }

  /**
   * With no automatic match, the export step as written fails although
   * the manual decisions would have given a non-empty table.
   */
  lemma ManualOnlyExportFails(manual: seq<Redirect>)
    requires manual != []
    ensures MergeAsWritten([], manual).Failure?
    ensures Merge([], manual) != []
  {
    SourceSetMembers(manual);
    assert manual[0].from in SourceSet(Merge([], manual));
  }

  /** A URL matched automatically to X and manually to Y is exported once, to X. */
  lemma MergeExample()
    ensures Merge([AutoMatch("A", Text("X"), Text("Blue Hoodie"), 90.0, Matcher.TokenSetRatio)],
                  [Redirect("A", Text("Y"))])
      == [Redirect("A", Text("X"))]
  {
    var x := Redirect("A", Text("X"));
    var s := [x] + [Redirect("A", Text("Y"))];
    assert Pairs([AutoMatch("A", Text("X"), Text("Blue Hoodie"), 90.0, Matcher.TokenSetRatio)]) == [x];
    assert s[..1] == [x];
    assert Dedup([x]) == [x] by { assert [x][..0] == []; }
    assert SourceSet([x]) == {"A"} by { assert [x][..0] == []; }
  }
}
