/**
 * The text normaliser: lower-case, drop every character outside
 * `[a-z0-9\s]`, turn each run of whitespace into one space, trim.
 * Whitespace is Python's: the characters for which `str.isspace()` holds,
 * which is what `\s` matches in a `str` pattern.
 */
module Normalizer {
  import opened Tables

  predicate IsSpace(c: char) {
    || c == ' '
    || ('\t' <= c <= '\r')
    || ('\U{1C}' <= c <= '\U{1F}')
    || c == '\U{85}' || c == '\U{A0}' || c == '\U{1680}'
    || ('\U{2000}' <= c <= '\U{200A}')
    || c == '\U{2028}' || c == '\U{2029}' || c == '\U{202F}'
    || c == '\U{205F}' || c == '\U{3000}'
  }

  predicate IsAsciiLower(c: char) { 'a' <= c <= 'z' }
  predicate IsDigit(c: char) { '0' <= c <= '9' }

  /** Characters the pattern `[^a-z0-9\s]` does not delete. */
  predicate IsKept(c: char) { IsAsciiLower(c) || IsDigit(c) || IsSpace(c) }

  /** Characters a normalised string may contain. */
  predicate IsNormalChar(c: char) { IsAsciiLower(c) || IsDigit(c) || c == ' ' }

  /**
   * `str.lower()` on one character, for the characters whose lower case
   * can survive the filter: A-Z, the Kelvin sign (lower case 'k') and the
   * capital I with dot above (lower case "i" plus a combining dot). Every
   * other character is left as it is; its lower case, whatever it is, lies
   * outside `[a-z0-9\s]` just as the character itself does.
   */
  function LowerChar(c: char): (r: string)
    ensures 'A' <= c <= 'Z' ==> r == [(c as int - 'A' as int + 'a' as int) as char] && IsAsciiLower(r[0])
    ensures c == '\U{212A}' ==> r == "k"
    ensures c == '\U{130}' ==> r == "i\U{307}"
    ensures IsKept(c) && !('A' <= c <= 'Z') ==> r == [c]
  {
    if 'A' <= c <= 'Z' then [(c as int + 32) as char]
    else if c == '\U{212A}' then ['k']
    else if c == '\U{130}' then ['i', '\U{307}']
    else [c]
  }

  function Lower(s: string): string {
    if s == [] then [] else LowerChar(s[0]) + Lower(s[1..])
  }

  /** `re.sub(r'[^a-z0-9\s]', '', s)` */
  function Keep(s: string): string {
    if s == [] then []
    else if IsKept(s[0]) then [s[0]] + Keep(s[1..])
    else Keep(s[1..])
  }

  /** Drops the leading whitespace of `s`. */
  function DropSpaces(s: string): (r: string)
    ensures |r| <= |s|
  {
    if s != [] && IsSpace(s[0]) then DropSpaces(s[1..]) else s
  }

  /** `re.sub(r'\s+', ' ', s)`: each maximal run of whitespace becomes one space. */
  function Collapse(s: string): (r: string)
    decreases |s|
  {
    if s == [] then []
    else if IsSpace(s[0]) then [' '] + Collapse(DropSpaces(s[1..]))
    else [s[0]] + Collapse(s[1..])
  }

  /** Drops the trailing whitespace of `s`. */
  function DropTrailingSpaces(s: string): string {
    if s != [] && IsSpace(s[|s| - 1]) then DropTrailingSpaces(s[..|s| - 1]) else s
  }

  /** `str.strip()` with no argument. */
  function Strip(s: string): string {
    DropTrailingSpaces(DropSpaces(s))
  }

  /** `normalize(text)`: a non-string becomes the empty string. */
  function Normalize(c: Cell): string {
    match c
    case Missing => ""
    case Text(s) => Strip(Collapse(Keep(Lower(s))))
  }

  /** The filter leaves only ASCII lower-case letters, digits and whitespace. */
  lemma {:induction false} KeepKept(s: string)
    ensures forall i :: 0 <= i < |Keep(s)| ==> IsKept(Keep(s)[i])
  {
    if s != [] {
      KeepKept(s[1..]);
    }
  }

  /** The filter works character by character: it distributes over concatenation. */
  lemma {:induction false} KeepConcat(a: string, b: string)
    ensures Keep(a + b) == Keep(a) + Keep(b)
  {
    if a != [] {
      assert (a + b)[0] == a[0];
      assert (a + b)[1..] == a[1..] + b;
      KeepConcat(a[1..], b);
    } else {
      assert a + b == b;
    }
  }

  /** One character survives the filter exactly when it is a letter, a digit or whitespace. */
  lemma KeepChar(c: char)
    ensures Keep([c]) == if IsKept(c) then [c] else []
  {
    assert [c][1..] == [];
  }

  /** The characters of `s` that are not whitespace, in order. */
  function NonSpace(s: string): string {
    if s == [] then [] else (if IsSpace(s[0]) then [] else [s[0]]) + NonSpace(s[1..])
  }

  lemma NonSpaceCons(c: char, t: string)
    ensures NonSpace([c] + t) == (if IsSpace(c) then [] else [c]) + NonSpace(t)
  {
    assert ([c] + t)[0] == c;
    assert ([c] + t)[1..] == t;
  }

  lemma {:induction false} DropSpacesText(s: string)
    ensures NonSpace(DropSpaces(s)) == NonSpace(s)
  {
    if s != [] && IsSpace(s[0]) {
      DropSpacesText(s[1..]);
    }
  }

  /** Collapsing whitespace runs keeps every other character, in order. */
  lemma {:induction false} CollapseText(s: string)
    ensures NonSpace(Collapse(s)) == NonSpace(s)
    decreases |s|
  {
    if s == [] {
    } else if IsSpace(s[0]) {
      var t := DropSpaces(s[1..]);
      CollapseText(t);
      DropSpacesText(s[1..]);
      NonSpaceCons(' ', Collapse(t));
    } else {
      CollapseText(s[1..]);
      NonSpaceCons(s[0], Collapse(s[1..]));
    }
  }

  lemma {:induction false} NonSpaceConcat(a: string, b: string)
    ensures NonSpace(a + b) == NonSpace(a) + NonSpace(b)
  {
    if a == [] {
      assert a + b == b;
    } else {
      assert a + b == [a[0]] + (a[1..] + b);
      NonSpaceCons(a[0], a[1..] + b);
      NonSpaceConcat(a[1..], b);
    }
  }

  lemma {:induction false} DropTrailingSpacesText(s: string)
    ensures NonSpace(DropTrailingSpaces(s)) == NonSpace(s)
  {
    if s != [] && IsSpace(s[|s| - 1]) {
      var n := |s| - 1;
      DropTrailingSpacesText(s[..n]);
      assert s == s[..n] + [s[n]];
      NonSpaceConcat(s[..n], [s[n]]);
      NonSpaceCons(s[n], []);
      assert [s[n]] + [] == [s[n]];
    }
  }

  /** `strip()` removes whitespace only. */
  lemma StripText(s: string)
    ensures NonSpace(Strip(s)) == NonSpace(s)
  {
    DropSpacesText(s);
    DropTrailingSpacesText(DropSpaces(s));
  }

  /**
   * `normalize` keeps every letter and digit of the lower-cased text, in
   * order; only whitespace is rearranged.
   */
  lemma NormalizeText(s: string)
    ensures NonSpace(Normalize(Text(s))) == NonSpace(Keep(Lower(s)))
  {
    var k := Keep(Lower(s));
    StripText(Collapse(k));
    CollapseText(k);
  }

  /** A whitespace run followed by a non-whitespace character is dropped as a whole. */
  lemma {:induction false} DropSpacesRun(w: string, b: string)
    requires forall i :: 0 <= i < |w| ==> IsSpace(w[i])
    requires b == [] || !IsSpace(b[0])
    ensures DropSpaces(w + b) == b
  {
    if w == [] {
      assert w + b == b;
    } else {
      assert (w + b)[0] == w[0];
      assert (w + b)[1..] == w[1..] + b;
      DropSpacesRun(w[1..], b);
    }
  }

  /** Dropping leading whitespace stops inside `x` when `x` holds a non-whitespace character. */
  lemma {:induction false} DropSpacesConcat(x: string, b: string)
    requires DropSpaces(x) != []
    ensures DropSpaces(x + b) == DropSpaces(x) + b
  {
    assert (x + b)[0] == x[0];
    if IsSpace(x[0]) {
      assert (x + b)[1..] == x[1..] + b;
      DropSpacesConcat(x[1..], b);
    }
  }

  /** A string ending in non-whitespace keeps that last character when its leading run is dropped. */
  lemma DropSpacesKeepsLast(x: string)
    requires x != [] && !IsSpace(x[|x| - 1])
    ensures DropSpaces(x) != [] && DropSpaces(x)[|DropSpaces(x)| - 1] == x[|x| - 1]
  {
    DropSpacesShape(x);
  }

  /**
   * `re.sub(r'\s+', ' ', s)` on a whitespace run `w` followed by text: the
   * whole run becomes exactly one space.
   */
  lemma CollapseRun(w: string, b: string)
    requires w != [] && forall i :: 0 <= i < |w| ==> IsSpace(w[i])
    requires b == [] || !IsSpace(b[0])
    ensures Collapse(w + b) == [' '] + Collapse(b)
  {
    assert (w + b)[0] == w[0];
    assert (w + b)[1..] == w[1..] + b;
    DropSpacesRun(w[1..], b);
  }

  /**
   * Collapsing works run by run: a string cut after a non-whitespace
   * character collapses as its two parts do.
   */
  lemma {:induction false} CollapseConcat(a: string, b: string)
    requires a == [] || !IsSpace(a[|a| - 1])
    ensures Collapse(a + b) == Collapse(a) + Collapse(b)
    decreases |a|
  {
    if a == [] {
      assert a + b == b;
    } else if IsSpace(a[0]) {
      var x := a[1..];
      var t := DropSpaces(x);
      assert DropSpaces((a + b)[1..]) == t + b by {
        assert (a + b)[1..] == x + b;
        DropSpacesKeepsLast(x);
        DropSpacesConcat(x, b);
      }
      assert Collapse(t + b) == Collapse(t) + Collapse(b) by {
        DropSpacesKeepsLast(x);
        CollapseConcat(t, b);
      }
      assert (a + b)[0] == a[0];
    } else {
      assert Collapse(a[1..] + b) == Collapse(a[1..]) + Collapse(b) by {
        CollapseConcat(a[1..], b);
      }
      assert (a + b)[0] == a[0] && (a + b)[1..] == a[1..] + b;
    }
  }


  /** DropSpaces removes exactly the leading whitespace run. */
  lemma {:induction false} DropSpacesShape(s: string)
    ensures var r := DropSpaces(s);
      && r == s[|s| - |r|..]
      && (r == [] || !IsSpace(r[0]))
      && (forall i :: 0 <= i < |s| - |r| ==> IsSpace(s[i]))
  {
    if s != [] && IsSpace(s[0]) {
      DropSpacesShape(s[1..]);
    }
  }

  /** DropTrailingSpaces removes exactly the trailing whitespace run. */
  lemma {:induction false} DropTrailingSpacesShape(s: string)
    ensures var r := DropTrailingSpaces(s);
      && |r| <= |s| && r == s[..|r|]
      && (r == [] || !IsSpace(r[|r| - 1]))
      && (forall i :: |r| <= i < |s| ==> IsSpace(s[i]))
  {
    if s != [] && IsSpace(s[|s| - 1]) {
      DropTrailingSpacesShape(s[..|s| - 1]);
    }
  }

  /** A stripped string is empty or starts and ends with a non-whitespace character. */
  lemma StripShape(s: string)
    ensures var r := Strip(s); r == [] || (!IsSpace(r[0]) && !IsSpace(r[|r| - 1]))
  {
    var d := DropSpaces(s);
    DropSpacesShape(s);
    DropTrailingSpacesShape(d);
    var r := DropTrailingSpaces(d);
    if r != [] {
      assert r[0] == d[0];
    }
  }

  /** The shape of every normalised string. */
  predicate IsNormal(s: string) {
    && (forall i :: 0 <= i < |s| ==> IsNormalChar(s[i]))
    && (s != [] ==> s[0] != ' ' && s[|s| - 1] != ' ')
    && (forall i :: 0 <= i < |s| - 1 ==> s[i] != ' ' || s[i + 1] != ' ')
  }

  /** Strings whose whitespace is single spaces, never two in a row. */
  predicate IsCollapsed(s: string) {
    && (forall i :: 0 <= i < |s| ==> IsNormalChar(s[i]))
    && (forall i :: 0 <= i < |s| - 1 ==> s[i] != ' ' || s[i + 1] != ' ')
  }

  lemma {:induction false} CollapseShape(s: string)
    requires forall i :: 0 <= i < |s| ==> IsKept(s[i])
    ensures IsCollapsed(Collapse(s))
    ensures s == [] <==> Collapse(s) == []
    ensures s != [] ==> Collapse(s)[0] == if IsSpace(s[0]) then ' ' else s[0]
    decreases |s|
  {
    if s == [] {
    } else if IsSpace(s[0]) {
      var t := DropSpaces(s[1..]);
      DropSpacesShape(s[1..]);
      assert forall i :: 0 <= i < |t| ==> t[i] == s[1..][|s[1..]| - |t| + i];
      CollapseShape(t);
      var r := Collapse(t);
      assert Collapse(s) == [' '] + r;
      assert r != [] ==> r[0] != ' ' by {
        if r != [] {
          assert t != [] && !IsSpace(t[0]);
        }
      }
      CollapsedCons(' ', r);
    } else {
      CollapseShape(s[1..]);
      assert Collapse(s) == [s[0]] + Collapse(s[1..]);
      CollapsedCons(s[0], Collapse(s[1..]));
    }
  }

  lemma CollapsedCons(c: char, r: string)
    requires IsNormalChar(c) && IsCollapsed(r)
    requires c == ' ' ==> r == [] || r[0] != ' '
    ensures IsCollapsed([c] + r)
  {
    var s := [c] + r;
    assert forall i :: 0 < i < |s| ==> s[i] == r[i - 1];
  }

  lemma NormalCharSpace(c: char)
    requires IsNormalChar(c)
    ensures IsSpace(c) <==> c == ' '
  {
  }

  lemma StripCollapsed(s: string)
    requires IsCollapsed(s)
    ensures IsNormal(Strip(s))
  {
    var d := DropSpaces(s);
    var r := DropTrailingSpaces(d);
    DropSpacesShape(s);
    DropTrailingSpacesShape(d);
    var a := |s| - |d|;
    assert r == s[a..a + |r|];
    assert forall i :: 0 <= i < |r| ==> r[i] == s[a + i];
    if r != [] {
      NormalCharSpace(r[0]);
      NormalCharSpace(r[|r| - 1]);
    }
  }

  /** Every normalised string has the shape `IsNormal` describes. */
  lemma NormalizeIsNormal(c: Cell)
    ensures IsNormal(Normalize(c))
  {
    if c.Text? {
      KeepKept(Lower(c.s));
      CollapseShape(Keep(Lower(c.s)));
      StripCollapsed(Collapse(Keep(Lower(c.s))));
    }
  }

  lemma {:induction false} LowerOfNormal(s: string)
    requires forall i :: 0 <= i < |s| ==> IsNormalChar(s[i])
    ensures Lower(s) == s
  {
    if s != [] {
      LowerOfNormal(s[1..]);
    }
  }

  lemma {:induction false} KeepOfNormal(s: string)
    requires forall i :: 0 <= i < |s| ==> IsNormalChar(s[i])
    ensures Keep(s) == s
  {
    if s != [] {
      KeepOfNormal(s[1..]);
    }
  }

  lemma {:induction false} CollapseOfCollapsed(s: string)
    requires IsCollapsed(s)
    ensures Collapse(s) == s
    decreases |s|
  {
    if s != [] {
      var t := s[1..];
      assert IsCollapsed(t) by {
        assert forall i :: 0 <= i < |t| ==> t[i] == s[i + 1];
      }
      CollapseOfCollapsed(t);
      NormalCharSpace(s[0]);
      if IsSpace(s[0]) {
        if t != [] {
          assert t[0] == s[1];
          NormalCharSpace(t[0]);
        }
        assert DropSpaces(t) == t;
        assert Collapse(s) == [' '] + Collapse(t);
      } else {
        assert Collapse(s) == [s[0]] + Collapse(t);
      }
      assert s == [s[0]] + t;
    }
  }

  lemma StripOfNormal(s: string)
    requires IsNormal(s)
    ensures Strip(s) == s
  {
    if s != [] {
      NormalCharSpace(s[0]);
      NormalCharSpace(s[|s| - 1]);
    }
    assert DropSpaces(s) == s;
    assert DropTrailingSpaces(s) == s;
  }

  /** normalize(normalize(x)) == normalize(x) */
  lemma NormalizeIdempotent(c: Cell)
    ensures Normalize(Text(Normalize(c))) == Normalize(c)
  {
    var s := Normalize(c);
    NormalizeIsNormal(c);
    LowerOfNormal(s);
    KeepOfNormal(s);
    CollapseOfCollapsed(s);
    StripOfNormal(s);
  }

  /** Normal strings are exactly the fixed points of the normaliser. */
  lemma NormalIffFixedPoint(s: string)
    ensures IsNormal(s) <==> Normalize(Text(s)) == s
  {
    if IsNormal(s) {
      LowerOfNormal(s);
      KeepOfNormal(s);
      CollapseOfCollapsed(s);
      StripOfNormal(s);
    }
    NormalizeIsNormal(Text(s));
  }

  /** Upper case, a hyphen and outer spaces: `normalize(" A-b ")` is "ab". */
  lemma NormalizeExample()
    ensures Normalize(Text(" A-b ")) == "ab"
  {
    ExampleLower();
    ExampleKeep();
    ExampleCollapse();
    ExampleStrip();
  }

  lemma ExampleLower()
    ensures Lower(" A-b ") == " a-b "
  {
    var s := " A-b ";
    assert s[1..] == "A-b " && s[2..] == "-b " && s[3..] == "b " && s[4..] == " ";
  }

  lemma ExampleKeep()
    ensures Keep(" a-b ") == " ab "
  {
    var s := " a-b ";
    assert s[1..] == "a-b " && s[2..] == "-b " && s[3..] == "b " && s[4..] == " ";
  }

  lemma ExampleCollapse()
    ensures Collapse(" ab ") == " ab "
  {
    var s := " ab ";
    assert s[1..] == "ab " && s[2..] == "b " && s[3..] == " ";
    assert DropSpaces("ab ") == "ab ";
    assert " "[1..] == [];
  }

  lemma ExampleStrip()
    ensures Strip(" ab ") == "ab"
  {
    assert " ab "[1..] == "ab ";
    assert DropSpaces(" ab ") == "ab ";
    assert "ab "[..2] == "ab";
  }

  /** Two words apart: `normalize("A  b")` keeps one space between them. */
  lemma NormalizeSpaceExample()
    ensures Normalize(Text("A  b")) == "a b"
  {
    SpaceExampleLower();
    SpaceExampleCollapse();
    SpaceExampleStrip();
  }

  lemma SpaceExampleLower()
    ensures Keep(Lower("A  b")) == "a  b"
  {
    var s := "A  b";
    assert s[1..] == "  b" && s[2..] == " b" && s[3..] == "b";
    assert Lower(s) == "a  b";
    var l := "a  b";
    assert l[1..] == "  b" && l[2..] == " b" && l[3..] == "b";
  }

  lemma SpaceExampleCollapse()
    ensures Collapse("a  b") == "a b"
  {
    assert "a  b" == "a" + ("  " + "b");
    CollapseConcat("a", "  " + "b");
    CollapseRun("  ", "b");
    assert Collapse("a") == "a" by { assert "a"[1..] == []; }
    assert Collapse("b") == "b" by { assert "b"[1..] == []; }
  }

  lemma SpaceExampleStrip()
    ensures Strip("a b") == "a b"
  {
    var c := "a b";
    assert c[1..] == " b" && c[2..] == "b";
    assert DropSpaces(c) == c;
    assert DropTrailingSpaces(c) == c;
  }
}
