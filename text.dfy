/** The string operations the handlers rely on: Python's `str.strip()` and
    `str.lower()`, and the case-insensitive substring test behind SQL `ilike '%term%'`.
    Lower-casing is ASCII only, as SQLite's `lower()` and `LIKE` are. */
module Text {

  /** Python's `str.isspace` for a single character. */
  predicate IsSpace(c: char)
  {
    || c == ' '
    || ('\t' <= c <= '\r')
    || ('\U{1C}' <= c <= '\U{1F}')
    || c == '\U{85}' || c == '\U{A0}' || c == '\U{1680}'
    || ('\U{2000}' <= c <= '\U{200A}')
    || c == '\U{2028}' || c == '\U{2029}' || c == '\U{202F}' || c == '\U{205F}' || c == '\U{3000}'
  }

  predicate AllSpace(s: string)
  {
    forall i :: 0 <= i < |s| ==> IsSpace(s[i])
  }

  /** Whitespace in front of whitespace is whitespace. */
  lemma AllSpaceCons(c: char, t: string)
    requires IsSpace(c) && AllSpace(t)
    ensures AllSpace([c] + t)
  {
    assert forall i :: 1 <= i < |[c] + t| ==> ([c] + t)[i] == t[i - 1];
  }

  /** Whitespace after whitespace is whitespace. */
  lemma AllSpaceSnoc(t: string, c: char)
    requires AllSpace(t) && IsSpace(c)
    ensures AllSpace(t + [c])
  {
  }

  /** Drops leading whitespace: what is removed is all whitespace, what is kept is a
      suffix of the input that does not start with whitespace. */
  function LStrip(s: string): (r: string)
    ensures |r| <= |s| && r == s[|s| - |r|..]
    ensures AllSpace(s[..|s| - |r|])
    ensures r == [] || !IsSpace(r[0])
  {
    if s != [] && IsSpace(s[0]) then
      var r := LStrip(s[1..]);
      assert s[..|s| - |r|] == [s[0]] + s[1..][..|s| - 1 - |r|];
      AllSpaceCons(s[0], s[1..][..|s| - 1 - |r|]);
      r
    else s
  }

  /** Drops trailing whitespace: what is removed is all whitespace, what is kept is a
      prefix of the input that does not end with whitespace. */
  function RStrip(s: string): (r: string)
    ensures |r| <= |s| && r == s[..|r|]
    ensures AllSpace(s[|r|..])
    ensures r == [] || !IsSpace(r[|r| - 1])
  {
    if s != [] && IsSpace(s[|s| - 1]) then
      var r := RStrip(s[..|s| - 1]);
      assert s[|r|..] == s[..|s| - 1][|r|..] + [s[|s| - 1]];
      AllSpaceSnoc(s[..|s| - 1][|r|..], s[|s| - 1]);
      r
    else s
  }

  /** Python's `str.strip()` with no argument: the result is the input with the whitespace
      around it removed, and it neither starts nor ends with whitespace. */
  function Strip(s: string): (r: string)
    ensures |r| <= |s|
    ensures exists i, j :: 0 <= i <= j <= |s| && r == s[i..j] && AllSpace(s[..i]) && AllSpace(s[j..])
    ensures r == [] || (!IsSpace(r[0]) && !IsSpace(r[|r| - 1]))
  {
    var l := LStrip(s);
    var r := RStrip(l);
    Window(s, l, r);
    StripEnds(s);
    r
  }

  /** A prefix of a suffix, each cut off at whitespace, sits between two runs of
      whitespace. */
  lemma Window(s: string, l: string, r: string)
    requires |l| <= |s| && l == s[|s| - |l|..] && AllSpace(s[..|s| - |l|])
    requires |r| <= |l| && r == l[..|r|] && AllSpace(l[|r|..])
    ensures exists i, j :: 0 <= i <= j <= |s| && r == s[i..j] && AllSpace(s[..i]) && AllSpace(s[j..])
  {
    var i := |s| - |l|;
    SuffixSlices(s, l, |r|);
    assert r == s[i..i + |r|] && AllSpace(s[i + |r|..]);
  }

  /** `strip()`'s result neither starts nor ends with whitespace. */
  lemma StripEnds(s: string)
    ensures var r := RStrip(LStrip(s));
      r == [] || (!IsSpace(r[0]) && !IsSpace(r[|r| - 1]))
  {
    var l := LStrip(s);
    var r := RStrip(l);
    assert r != [] ==> r[0] == l[0];
  }

  /** Slicing a suffix of `s` is slicing `s` itself, shifted. */
  lemma SuffixSlices(s: string, l: string, n: nat)
    requires |l| <= |s| && l == s[|s| - |l|..] && n <= |l|
    ensures l[..n] == s[|s| - |l|..|s| - |l| + n] && l[n..] == s[|s| - |l| + n..]
  {
  }

  function LowerChar(c: char): char
  {
    if 'A' <= c <= 'Z' then (c as int + 32) as char else c
  }

  /** ASCII lower-casing: each of 'A'..'Z' becomes its lower-case letter, every other
      character is kept where it was, and so no upper-case letter is left. */
  function Lower(s: string): (r: string)
    ensures |r| == |s|
    ensures forall i :: 0 <= i < |r| ==> !('A' <= r[i] <= 'Z')
    ensures forall i :: 0 <= i < |s| && !('A' <= s[i] <= 'Z') ==> r[i] == s[i]
    ensures forall i :: 0 <= i < |s| && 'A' <= s[i] <= 'Z' ==> r[i] == (s[i] as int + 32) as char
  {
    seq(|s|, i requires 0 <= i < |s| => LowerChar(s[i]))
  }

  /** Lower-casing twice is lower-casing once. */
  lemma LowerIdempotent(s: string)
    ensures Lower(Lower(s)) == Lower(s)
  {
    var l := Lower(s);
    assert forall i :: 0 <= i < |l| ==> Lower(l)[i] == l[i];
  }

  /** Trim, then lower-case: the normal form both enum validators compare. It is no
      longer than the input and holds no upper-case letter; `NormalizeWindow` says which
      characters it keeps. */
  function Normalize(s: string): (r: string)
    ensures |r| <= |s|
    ensures forall i :: 0 <= i < |r| ==> !('A' <= r[i] <= 'Z')
  {
    Lower(Strip(s))
  }

  /** `s[i..j]` is what trimming leaves of `s`: whitespace only outside it, and no
      whitespace at either end of it. */
  predicate TrimWindow(s: string, i: int, j: int)
  {
    && 0 <= i <= j <= |s| && AllSpace(s[..i]) && AllSpace(s[j..])
    && (i < j ==> !IsSpace(s[i]) && !IsSpace(s[j - 1]))
  }

  /** The normal form is the lower-cased window that trimming leaves. */
  lemma NormalizeWindow(s: string)
    ensures exists i, j :: TrimWindow(s, i, j) && Normalize(s) == Lower(s[i..j])
  {
    var t := Strip(s);
    LowerWindow(s, t, Normalize(s));
  }

  /** The window `Strip` leaves, lower-cased. */
  lemma LowerWindow(s: string, t: string, r: string)
    requires exists i, j :: 0 <= i <= j <= |s| && t == s[i..j] && AllSpace(s[..i]) && AllSpace(s[j..])
    requires t == [] || (!IsSpace(t[0]) && !IsSpace(t[|t| - 1]))
    requires r == Lower(t)
    ensures exists i, j :: TrimWindow(s, i, j) && r == Lower(s[i..j])
  {
    var i, j :| 0 <= i <= j <= |s| && t == s[i..j] && AllSpace(s[..i]) && AllSpace(s[j..]);
    assert i < j ==> s[i] == t[0] && s[j - 1] == t[|t| - 1];
    assert TrimWindow(s, i, j);
  }

  /** Lower-casing a window of a string is the window of the lower-cased string. */
  lemma LowerWindows(hay: string, n: nat)
    ensures forall i :: 0 <= i <= |hay| - n ==> Lower(hay)[i..][..n] == Lower(hay[i..][..n])
  {
    forall i | 0 <= i <= |hay| - n ensures Lower(hay)[i..][..n] == Lower(hay[i..][..n]) {
      assert forall k :: 0 <= k < n ==> Lower(hay)[i..][..n][k] == LowerChar(hay[i + k]);
    }
  }

  /** Does `needle` occur in `hay` as a contiguous run of characters? */
  function Contains(hay: string, needle: string): (b: bool)
    ensures b <==> exists i :: 0 <= i <= |hay| - |needle| && needle == hay[i..][..|needle|]
  {
    if needle <= hay then
      assert needle == hay[0..][..|needle|];
      true
    else if hay == [] then
      false
    else
      var b := Contains(hay[1..], needle);
      assert forall i :: 1 <= i <= |hay| - |needle| ==> hay[i..] == hay[1..][i - 1..];
      b
  }

  /** `ilike '%needle%'` without wildcards in the needle: some window of `hay` as long
      as the needle equals it up to letter case. */
  function ContainsIgnoreCase(hay: string, needle: string): (b: bool)
    ensures b <==> exists i :: 0 <= i <= |hay| - |needle| && Lower(needle) == Lower(hay[i..][..|needle|])
    ensures needle == [] ==> b
  {
    LowerWindows(hay, |needle|);
    assert needle == [] ==> Lower(needle) == Lower(hay[0..][..0]);
    Contains(Lower(hay), Lower(needle))
  }

  lemma {:induction false} LStripPadded(w: string, s: string)
    requires AllSpace(w)
    ensures LStrip(w + s) == LStrip(s)
  {
    if w != [] {
      assert (w + s)[0] == w[0] && IsSpace(w[0]);
      assert (w + s)[1..] == w[1..] + s;
      assert LStrip(w + s) == LStrip(w[1..] + s);
      LStripPadded(w[1..], s);
    } else {
      assert w + s == s;
    }
  }

  lemma {:induction false} RStripPadded(s: string, w: string)
    requires AllSpace(w)
    ensures RStrip(s + w) == RStrip(s)
  {
    if w != [] {
      assert (s + w)[|s + w| - 1] == w[|w| - 1] && IsSpace(w[|w| - 1]);
      assert (s + w)[..|s + w| - 1] == s + w[..|w| - 1];
      assert RStrip(s + w) == RStrip(s + w[..|w| - 1]);
      RStripPadded(s, w[..|w| - 1]);
    } else {
      assert s + w == s;
    }
  }

  /** What `lstrip()` returns: a suffix of `s`, after whitespace only, that does not
      start with whitespace. `LStrip`'s own contract says it returns such a string. */
  predicate LeftStripped(s: string, r: string)
  {
    && |r| <= |s| && r == s[|s| - |r|..] && AllSpace(s[..|s| - |r|])
    && (r == [] || !IsSpace(r[0]))
  }

  /** A whitespace prefix of `s` ends where a `LeftStripped` result starts, or earlier. */
  lemma SpacePrefixBound(s: string, r: string, k: nat)
    requires LeftStripped(s, r)
    requires k <= |s| && AllSpace(s[..k])
    ensures k <= |s| - |r|
  {
    assert forall i :: 0 <= i < k ==> s[..k][i] == s[i];
    assert r != [] ==> s[|s| - |r|] == r[0];
  }

  /** Only one string is `LeftStripped` from a given one. */
  lemma LeftStrippedUnique(s: string, r1: string, r2: string)
    requires LeftStripped(s, r1) && LeftStripped(s, r2)
    ensures r1 == r2
  {
    SpacePrefixBound(s, r1, |s| - |r2|);
    SpacePrefixBound(s, r2, |s| - |r1|);
  }

  /** Whitespace appended to a string survives `lstrip()` unless the string is all
      whitespace. */
  lemma LeftStrippedAppend(s: string, w: string, l: string)
    requires AllSpace(w) && LeftStripped(s, l)
    ensures LeftStripped(s + w, if AllSpace(s) then [] else l + w)
  {
    var x := s + w;
    assert s[..|s|] == s;
    if AllSpace(s) {
      assert forall i :: 0 <= i < |x| ==> IsSpace(x[i]) by {
        forall i | 0 <= i < |x|
          ensures IsSpace(x[i])
        {
          if i < |s| {
            assert x[i] == s[i];
          } else {
            assert x[i] == w[i - |s|];
          }
        }
      }
      assert x[..|x|] == x;
    } else {
      assert x[|x| - |l + w|..] == s[|s| - |l|..] + w;
      assert x[..|x| - |l + w|] == s[..|s| - |l|];
      assert (l + w)[0] == l[0];
    }
  }

  lemma {:induction false} LStripAppend(s: string, w: string)
    requires AllSpace(w)
    ensures LStrip(s + w) == if AllSpace(s) then [] else LStrip(s) + w
  {
    var l := LStrip(s);
    assert LeftStripped(s, l);
    LeftStrippedAppend(s, w, l);
    var r := LStrip(s + w);
    assert LeftStripped(s + w, r);
    LeftStrippedUnique(s + w, r, if AllSpace(s) then [] else l + w);
  }

  /** Whitespace around a string does not change what `strip()` returns. */
  lemma StripPadded(w1: string, s: string, w2: string)
    requires AllSpace(w1) && AllSpace(w2)
    ensures Strip(w1 + s + w2) == Strip(s)
  {
    assert w1 + s + w2 == w1 + (s + w2);
    LStripPadded(w1, s + w2);
    LStripAppend(s, w2);
    if !AllSpace(s) {
      RStripPadded(LStrip(s), w2);
    } else {
      assert LStrip(s) == [];
    }
  }

  lemma {:induction false} LStripAllSpace(s: string)
    ensures LStrip(s) == [] <==> AllSpace(s)
  {
    if s != [] && IsSpace(s[0]) {
      assert AllSpace(s) <==> AllSpace(s[1..]) by {
        if AllSpace(s[1..]) {
          forall i | 0 <= i < |s| ensures IsSpace(s[i]) { if i > 0 { assert s[i] == s[1..][i - 1]; } }
        }
        if AllSpace(s) {
          forall i | 0 <= i < |s| - 1 ensures IsSpace(s[1..][i]) { assert s[1..][i] == s[i + 1]; }
        }
      }
      LStripAllSpace(s[1..]);
    }
  }

  /** A string of whitespace only strips to the empty string, and only such a string does. */
  lemma StripEmpty(s: string)
    ensures Strip(s) == [] <==> AllSpace(s)
  {
    LStripAllSpace(s);
  }

  lemma LowerCharSpace(c: char)
    ensures IsSpace(LowerChar(c)) == IsSpace(c)
  {
  }

  lemma {:induction false} LStripLower(s: string)
    ensures LStrip(Lower(s)) == Lower(LStrip(s))
  {
    if s != [] {
      LowerCharSpace(s[0]);
      assert Lower(s)[1..] == Lower(s[1..]);
      LStripLower(s[1..]);
    }
  }

  lemma {:induction false} RStripLower(s: string)
    ensures RStrip(Lower(s)) == Lower(RStrip(s))
  {
    if s != [] {
      LowerCharSpace(s[|s| - 1]);
      assert Lower(s)[..|s| - 1] == Lower(s[..|s| - 1]);
      RStripLower(s[..|s| - 1]);
    }
  }

  /** A non-empty word of lower-case ASCII letters is its own normal form. */
  lemma NormalizeLowerWord(s: string)
    requires |s| > 0 && forall i :: 0 <= i < |s| ==> 'a' <= s[i] <= 'z'
    ensures Normalize(s) == s
  {
    assert !IsSpace(s[0]) && !IsSpace(s[|s| - 1]);
    NoLeadingSpace(s);
    NoTrailingSpace(s);
    LowerKeeps(s);
  }

  lemma NoLeadingSpace(s: string)
    requires s == [] || !IsSpace(s[0])
    ensures LStrip(s) == s
  {
  }

  lemma NoTrailingSpace(s: string)
    requires s == [] || !IsSpace(s[|s| - 1])
    ensures RStrip(s) == s
  {
  }

  /** A string without upper-case letters is its own lower-cased form. */
  lemma LowerKeeps(s: string)
    requires forall i :: 0 <= i < |s| ==> !('A' <= s[i] <= 'Z')
    ensures Lower(s) == s
  {
  }

  /** Trimming and lower-casing commute, so the normal form of a string depends only on
      its lower-cased form: inputs that differ only in letter case normalise alike. */
  lemma NormalizeIgnoresCase(s: string, t: string)
    requires Lower(s) == Lower(t)
    ensures Normalize(s) == Normalize(t)
  {
    LStripLower(s);
    RStripLower(LStrip(s));
    LStripLower(t);
    RStripLower(LStrip(t));
  }
}
