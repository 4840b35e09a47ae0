/**
 * The catalog index: `title_map` and `slug_map`, two dictionaries keyed
 * by normalised product title, and `titles`, their key list. The maps
 * are built with `dict(zip(...))`, so a later row with the same
 * normalised title overwrites the value while the key keeps the place of
 * its first insertion.
 */
module Catalog {
  import opened Tables
  import opened Normalizer

  /** One row of the product table: "Product Title" and "Product URL slug". */
  datatype Product = Product(title: Cell, slug: Cell)

  datatype Index = Index(titles: seq<string>, titleMap: map<string, Cell>, slugMap: map<string, Cell>) {

    /** `titles` lists the keys of both maps, each once. */
    ghost predicate Valid() {
      && titleMap.Keys == slugMap.Keys
      && (forall i :: 0 <= i < |titles| ==> titles[i] in titleMap)
      && (forall k :: k in titleMap ==> k in titles)
      && (forall i, j :: 0 <= i < j < |titles| ==> titles[i] != titles[j])
    }

    /** `d[k] = v` on both dictionaries: a new key goes to the end of the key list. */
    function Insert(k: string, p: Product): Index {
      Index(if k in titleMap then titles else titles + [k], titleMap[k := p.title], slugMap[k := p.slug])
    }
  }

  /** Line 71: the normalised titles of the product rows, in row order. */
  function Keys(ps: seq<Product>): (ks: seq<string>)
    ensures |ks| == |ps|
    ensures forall i :: 0 <= i < |ps| ==> ks[i] == Normalize(ps[i].title)
  {
    if ps == [] then [] else Keys(ps[..|ps| - 1]) + [Normalize(ps[|ps| - 1].title)]
  }

  /** `dict(zip(keys, rows))` for both maps at once, inserting row by row. */
  function Zip(ks: seq<string>, ps: seq<Product>): Index
    requires |ks| == |ps|
  {
    if ps == [] then Index([], map[], map[])
    else
      var n := |ps| - 1;
      Zip(ks[..n], ps[..n]).Insert(ks[n], ps[n])
  }

  /** Inserting keeps the key list and the two key sets in agreement. */
  lemma InsertValid(ix: Index, k: string, p: Product)
    requires ix.Valid()
    ensures ix.Insert(k, p).Valid()
  {
  }

  /** The maps zipped have the same keys, each listed once. */
  lemma {:induction false} ZipValid(ks: seq<string>, ps: seq<Product>)
    requires |ks| == |ps|
    ensures Zip(ks, ps).Valid()
  {
    if ps != [] {
      var n := |ps| - 1;
      ZipValid(ks[..n], ps[..n]);
      InsertValid(Zip(ks[..n], ps[..n]), ks[n], ps[n]);
    }
  }

  /** Lines 71-74: the index built from the product rows. */
  function Build(ps: seq<Product>): (ix: Index)
    ensures ix.Valid()
  {
    ZipValid(Keys(ps), ps);
    Zip(Keys(ps), ps)
  }

  /** The keys of the dictionaries are exactly the keys zipped in. */
  lemma {:induction false} ZipKeys(ks: seq<string>, ps: seq<Product>)
    requires |ks| == |ps|
    ensures forall k :: k in Zip(ks, ps).titleMap <==> k in ks
  {
    if ps != [] {
      var n := |ps| - 1;
      ZipKeys(ks[..n], ps[..n]);
      assert ks == ks[..n] + [ks[n]];
    }
  }

  /** Position `i` is the last position of `k` in `ks`. */
  ghost predicate IsLastOf(ks: seq<string>, k: string, i: int) {
    && 0 <= i < |ks|
    && ks[i] == k
    && forall j :: i < j < |ks| ==> ks[j] != k
  }

  /** For every key, both maps hold the title and slug of the LAST row zipped with it. */
  lemma {:induction false} ZipLastWins(ks: seq<string>, ps: seq<Product>, k: string)
    requires |ks| == |ps| && k in Zip(ks, ps).titleMap
    ensures exists i :: (IsLastOf(ks, k, i)
      && Zip(ks, ps).titleMap[k] == ps[i].title
      && k in Zip(ks, ps).slugMap && Zip(ks, ps).slugMap[k] == ps[i].slug)
  {
    assert ps != [];
    var n := |ps| - 1;
    var ix := Zip(ks[..n], ps[..n]);
    assert Zip(ks, ps) == ix.Insert(ks[n], ps[n]);
    if ks[n] == k {
      assert IsLastOf(ks, k, n);
    } else {
      ZipLastWins(ks[..n], ps[..n], k);
      var i :| IsLastOf(ks[..n], k, i) && ix.titleMap[k] == ps[..n][i].title
        && k in ix.slugMap && ix.slugMap[k] == ps[..n][i].slug;
      assert ps[..n][i] == ps[i] && ks[..n][i] == ks[i];
      assert IsLastOf(ks, k, i);
    }
  }

  /**
   * The key list is in order of first insertion: for two keys listed in
   * that order, some prefix of the zipped keys contains the first and not
   * yet the second.
   */
  lemma {:induction false} ZipOrder(ks: seq<string>, ps: seq<Product>, p: nat, q: nat)
    requires |ks| == |ps| && p < q < |Zip(ks, ps).titles|
    ensures exists i :: (0 <= i <= |ks|
      && Zip(ks, ps).titles[p] in ks[..i] && Zip(ks, ps).titles[q] !in ks[..i])
  {
    assert ps != [];
    var n := |ps| - 1;
    var init := ks[..n];
    var ix := Zip(init, ps[..n]);
    assert Zip(ks, ps) == ix.Insert(ks[n], ps[n]);
    var t := Zip(ks, ps).titles;
    if ks[n] in ix.titleMap || q < |ix.titles| {
      assert q < |ix.titles| && t[p] == ix.titles[p] && t[q] == ix.titles[q];
      ZipOrder(init, ps[..n], p, q);
      var i :| 0 <= i <= n && ix.titles[p] in init[..i] && ix.titles[q] !in init[..i];
      assert ks[..i] == init[..i];
    } else {
      ZipKeys(init, ps[..n]);
      ZipValid(init, ps[..n]);
      assert t[p] == ix.titles[p] && t[p] in init;
      assert ks[..n] == init;
    }
  }

  /** A string is a key of the index exactly when it is some row's normalised title. */
  lemma BuildKeys(ps: seq<Product>)
    ensures forall k :: k in Build(ps).titleMap <==> k in Keys(ps)
  {
    var ks := Keys(ps);
    assert Build(ps) == Zip(ks, ps);
    ZipKeys(ks, ps);
  }

  /** For every key, both maps hold the title and slug of the last row whose title normalises to it. */
  lemma BuildLastWins(ps: seq<Product>, k: string)
    requires k in Build(ps).titleMap
    ensures exists i :: (IsLastOf(Keys(ps), k, i)
      && Build(ps).titleMap[k] == ps[i].title && Build(ps).slugMap[k] == ps[i].slug)
  {
    var ks := Keys(ps);
    assert Build(ps) == Zip(ks, ps);
    ZipLastWins(ks, ps, k);
  }

  /** `titles` lists the keys in order of the first row that produced each. */
  lemma BuildOrder(ps: seq<Product>, p: nat, q: nat)
    requires p < q < |Build(ps).titles|
    ensures exists i :: (0 <= i <= |ps|
      && Build(ps).titles[p] in Keys(ps)[..i] && Build(ps).titles[q] !in Keys(ps)[..i])
  {
    var ks := Keys(ps);
    assert Build(ps) == Zip(ks, ps);
    ZipOrder(ks, ps, p, q);
  }
}
