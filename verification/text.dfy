/**
 Character classes and the whitespace/glyph steps of the text cleaning in
 `generate_answers`, plus Python's `str.strip()` used by both handlers.
 */
module Text {
  import opened Wrappers

  /** Python's `str.isspace()` on one character, which is also what `\s` matches
      in a `str` regular expression and what `str.strip()` removes. */
  predicate IsSpace(c: char) {
    || ('\t' <= c <= '\r')
    || ('\U{1C}' <= c <= '\U{1F}')
    || c == ' '
    || c == '\U{85}'
    || c == '\U{A0}'
    || c == '\U{1680}'
    || ('\U{2000}' <= c <= '\U{200A}')
    || c == '\U{2028}'
    || c == '\U{2029}'
    || c == '\U{202F}'
    || c == '\U{205F}'
    || c == '\U{3000}'
  }

  /** The check mark (U+2714) and the warning sign (U+26A0) that cleaning deletes. */
  predicate IsGlyph(c: char) {
    c == '\U{2714}' || c == '\U{26A0}'
  }

  predicate AllSpace(s: string) {
    forall i :: 0 <= i < |s| ==> IsSpace(s[i])
  }

  /** No whitespace at either end: what `str.strip()` guarantees. */
  predicate Stripped(s: string) {
    |s| == 0 || (!IsSpace(s[0]) && !IsSpace(s[|s| - 1]))
  }

  /** Whitespace normalised as by `re.sub(r"\s+", " ", ...)`: the only whitespace
      character is ' ' and no two of them are adjacent. */
  predicate Normal(s: string) {
    && (forall i :: 0 <= i < |s| && IsSpace(s[i]) ==> s[i] == ' ')
    && (forall i :: 0 <= i < |s| - 1 ==> !(s[i] == ' ' && s[i + 1] == ' '))
  }

  predicate NoGlyph(s: string) {
    forall i :: 0 <= i < |s| ==> !IsGlyph(s[i])
  }

  /** The characters of `s` that are not whitespace, in order. */
  function NonSpace(s: string): string {
    if |s| == 0 then ""
    else (if IsSpace(s[0]) then "" else [s[0]]) + NonSpace(s[1..])
  }

  /** The characters that survive every cleaning step: neither whitespace nor a glyph. */
  predicate VisibleChar(c: char) {
    !IsSpace(c) && !IsGlyph(c)
  }

  /** The visible characters of `s`, in order. */
  function Visible(s: string): string {
    if |s| == 0 then ""
    else (if VisibleChar(s[0]) then [s[0]] else "") + Visible(s[1..])
  }

  /** `str.lstrip()`: drops leading whitespace. */
  function LStrip(s: string): (r: string)
    ensures |r| <= |s| && r == s[|s| - |r|..]
    ensures AllSpace(s[..|s| - |r|])
    ensures |r| == 0 || !IsSpace(r[0])
  {
    if |s| > 0 && IsSpace(s[0]) then
      var r := LStrip(s[1..]);
      assert s[1..][|s| - 1 - |r|..] == s[|s| - |r|..];
      assert forall k :: 0 < k < |s| - |r| ==> s[k] == s[1..][..|s| - 1 - |r|][k - 1];
      r
    else s
  }

  /** `str.rstrip()`: drops trailing whitespace. */
  function RStrip(s: string): (r: string)
    ensures |r| <= |s| && r == s[..|r|]
    ensures AllSpace(s[|r|..])
    ensures |r| == 0 || !IsSpace(r[|r| - 1])
  {
    if |s| > 0 && IsSpace(s[|s| - 1]) then
      var r := RStrip(s[..|s| - 1]);
      assert s[..|s| - 1][..|r|] == s[..|r|];
      assert forall k :: |r| <= k < |s| - 1 ==> s[k] == s[..|s| - 1][|r|..][k - |r|];
      r
    else s
  }

  /** `str.strip()`: the result is the slice of `s` left after removing the
      whitespace at both ends, and has none left at either end. */
  function Strip(s: string): (r: string)
    ensures |r| <= |s|
    ensures Stripped(r)
  {
    RStrip(LStrip(s))
  }

  /** The characters of `s` other than `c`, in order: `s.replace(c, "")` for a
      one-character `c`. */
  function DeleteChar(s: string, c: char): (r: string)
    ensures |r| <= |s|
    ensures c !in r
    ensures forall d :: d != c ==> multiset(r)[d] == multiset(s)[d]
    ensures forall d :: d != c ==> (d in r <==> d in s)
    ensures c !in s ==> r == s
    ensures |s| > 0 && s[0] != c ==> |r| > 0 && r[0] == s[0]
  {
    if |s| == 0 then ""
    else
      assert s == [s[0]] + s[1..];
      (if s[0] == c then "" else [s[0]]) + DeleteChar(s[1..], c)
  }

  const CheckMark: char := '\U{2714}'
  const Warning: char := '\U{26A0}'

  /** Deletes the check mark, then the warning sign. */
  function RemoveGlyphs(s: string): (r: string)
    ensures NoGlyph(r)
    ensures NoGlyph(s) <==> r == s
  {
    var r := DeleteChar(DeleteChar(s, CheckMark), Warning);
    assert forall i :: 0 <= i < |r| ==> r[i] in r;
    if NoGlyph(s) then
      assert CheckMark !in s && Warning !in DeleteChar(s, CheckMark);
      r
    else
      r
  }

  /** Deletion works piece by piece: what is kept stays in order, and nothing
      on either side of a deleted character is joined or moved. */
  lemma {:induction false} DeleteCharAppend(a: string, b: string, c: char)
    ensures DeleteChar(a + b, c) == DeleteChar(a, c) + DeleteChar(b, c)
    decreases |a|
  {
    if |a| == 0 {
      assert a + b == b;
    } else {
      ConsSplit(a, b);
      DeleteCharAppend(a[1..], b, c);
      var h := if a[0] == c then "" else [a[0]];
      ConcatAssoc(h, DeleteChar(a[1..], c), DeleteChar(b, c));
    }
  }

  /** A single character is deleted when it is `c` and kept otherwise. */
  lemma DeleteCharOne(x: char, c: char)
    ensures DeleteChar([x], c) == if x == c then "" else [x]
  {
    assert [x][1..] == "";
  }

  /** Glyph removal works piece by piece. */
  lemma RemoveGlyphsAppend(a: string, b: string)
    ensures RemoveGlyphs(a + b) == RemoveGlyphs(a) + RemoveGlyphs(b)
  {
    DeleteCharAppend(a, b, CheckMark);
    DeleteCharAppend(DeleteChar(a, CheckMark), DeleteChar(b, CheckMark), Warning);
  }

  /** A single character is removed exactly when it is a glyph: whitespace and
      every other character stay. With RemoveGlyphsAppend this fixes the
      result on every string. */
  lemma RemoveGlyphsOne(x: char)
    ensures RemoveGlyphs([x]) == if IsGlyph(x) then "" else [x]
  {
    DeleteCharOne(x, CheckMark);
    if x != CheckMark {
      DeleteCharOne(x, Warning);
    } else {
      assert DeleteChar("", Warning) == "";
    }
  }

  /** `re.sub(r"\s+", " ", s)`: each maximal run of whitespace becomes one ' '. */
  function Collapse(s: string): (r: string)
    ensures |r| <= |s|
    ensures |s| > 0 ==> |r| > 0 && r[0] == (if IsSpace(s[0]) then ' ' else s[0])
    decreases |s|
  {
    if |s| == 0 then ""
    else if IsSpace(s[0]) then " " + Collapse(LStrip(s[1..]))
    else [s[0]] + Collapse(s[1..])
  }

  /** After collapsing, the only whitespace is ' ' and no two are adjacent. */
  lemma {:induction false} CollapseIsNormal(s: string)
    ensures Normal(Collapse(s))
    decreases |s|
  {
    if |s| > 0 {
      CollapseStep(s);
      var rest := if IsSpace(s[0]) then LStrip(s[1..]) else s[1..];
      CollapseIsNormal(rest);
      var c := Collapse(rest);
      var h := if IsSpace(s[0]) then ' ' else s[0];
      assert Collapse(s) == [h] + c;
      NormalCons(h, c);
    }
  }

  /** Putting a character in front of a normal string keeps it normal, unless
      it is whitespace other than ' ' or doubles a leading ' '. */
  lemma NormalCons(h: char, c: string)
    requires Normal(c)
    requires IsSpace(h) ==> h == ' '
    requires |c| == 0 || h != ' ' || c[0] != ' '
    ensures Normal([h] + c)
  {
    var r := [h] + c;
    forall i | 0 <= i < |r| && IsSpace(r[i]) ensures r[i] == ' ' {
      if i > 0 {
        assert r[i] == c[i - 1];
      }
    }
    forall i | 0 <= i < |r| - 1 ensures !(r[i] == ' ' && r[i + 1] == ' ') {
      if i > 0 {
        assert r[i] == c[i - 1] && r[i + 1] == c[i];
      }
    }
  }

  /** Collapsing keeps every non-whitespace character, in order. */
  lemma {:induction false} CollapseNonSpace(s: string)
    ensures NonSpace(Collapse(s)) == NonSpace(s)
    decreases |s|
  {
    if |s| > 0 {
      if IsSpace(s[0]) {
        var t := s[1..];
        var rest := LStrip(t);
        var lead := t[..|t| - |rest|];
        assert t == lead + rest;
        NonSpaceAllSpace(lead);
        NonSpaceAppend(lead, rest);
        CollapseNonSpace(rest);
        assert (" " + Collapse(rest))[1..] == Collapse(rest);
      } else {
        CollapseNonSpace(s[1..]);
        assert ([s[0]] + Collapse(s[1..]))[1..] == Collapse(s[1..]);
      }
    }
  }

  lemma {:induction false} NonSpaceAppend(a: string, b: string)
    ensures NonSpace(a + b) == NonSpace(a) + NonSpace(b)
    decreases |a|
  {
    if |a| > 0 {
      assert (a + b)[1..] == a[1..] + b;
      NonSpaceAppend(a[1..], b);
    } else {
      assert a + b == b;
    }
  }

  lemma {:induction false} NonSpaceAllSpace(a: string)
    requires AllSpace(a)
    ensures NonSpace(a) == ""
    decreases |a|
  {
    if |a| > 0 {
      NonSpaceAllSpace(a[1..]);
    }
  }

  lemma {:induction false} VisibleAppend(a: string, b: string)
    ensures Visible(a + b) == Visible(a) + Visible(b)
    decreases |a|
  {
    if |a| > 0 {
      assert (a + b)[1..] == a[1..] + b;
      VisibleAppend(a[1..], b);
    } else {
      assert a + b == b;
    }
  }

  lemma {:induction false} VisibleAllSpace(a: string)
    requires AllSpace(a)
    ensures Visible(a) == ""
    decreases |a|
  {
    if |a| > 0 {
      VisibleAllSpace(a[1..]);
    }
  }

  /** Visibility only looks at non-whitespace characters. */
  lemma {:induction false} VisibleNonSpace(s: string)
    ensures Visible(NonSpace(s)) == Visible(s)
    decreases |s|
  {
    if |s| > 0 {
      VisibleNonSpace(s[1..]);
      VisibleAppend(if IsSpace(s[0]) then "" else [s[0]], NonSpace(s[1..]));
    }
  }

  /** Deleting a glyph never deletes a visible character. */
  lemma {:induction false} VisibleDeleteGlyph(s: string, c: char)
    requires IsGlyph(c)
    ensures Visible(DeleteChar(s, c)) == Visible(s)
    decreases |s|
  {
    if |s| > 0 {
      VisibleDeleteGlyph(s[1..], c);
      VisibleAppend(if s[0] == c then "" else [s[0]], DeleteChar(s[1..], c));
    }
  }

  lemma VisibleRemoveGlyphs(s: string)
    ensures Visible(RemoveGlyphs(s)) == Visible(s)
  {
    VisibleDeleteGlyph(s, CheckMark);
    VisibleDeleteGlyph(DeleteChar(s, CheckMark), Warning);
  }

  lemma VisibleCollapse(s: string)
    ensures Visible(Collapse(s)) == Visible(s)
  {
    CollapseNonSpace(s);
    VisibleNonSpace(s);
    VisibleNonSpace(Collapse(s));
  }

  lemma VisibleMargins(s: string, p: int, q: int)
    requires 0 <= p <= q <= |s| && AllSpace(s[..p]) && AllSpace(s[q..])
    ensures Visible(s[p..q]) == Visible(s)
  {
    var lead, mid, tail := s[..p], s[p..q], s[q..];
    assert s == (lead + mid) + tail;
    VisibleAppend(lead + mid, tail);
    VisibleAppend(lead, mid);
    VisibleAllSpace(lead);
    VisibleAllSpace(tail);
  }

  lemma VisibleStrip(s: string)
    ensures Visible(Strip(s)) == Visible(s)
  {
    var p, q := StripBounds(s);
    VisibleMargins(s, p, q);
  }

  lemma AllSpacePrefix(s: string, p: int)
    requires 0 <= p <= |s| && AllSpace(s[..p])
    ensures forall m :: 0 <= m < p ==> IsSpace(s[m])
  {
    forall m | 0 <= m < p ensures IsSpace(s[m]) {
      assert s[m] == s[..p][m];
    }
  }

  lemma AllSpaceSuffix(s: string, q: int)
    requires 0 <= q <= |s| && AllSpace(s[q..])
    ensures forall m :: q <= m < |s| ==> IsSpace(s[m])
  {
    forall m | q <= m < |s| ensures IsSpace(s[m]) {
      assert s[m] == s[q..][m - q];
    }
  }

  /** `str.strip()` leaves an already stripped string alone. */
  lemma StripStripped(s: string)
    requires Stripped(s)
    ensures Strip(s) == s
  {
    var p, q := StripBounds(s);
    assert s[0..|s|] == s;
  }

  /** `str.strip()` of a string made only of whitespace is empty. */
  lemma StripAllSpace(s: string)
    requires AllSpace(s)
    ensures Strip(s) == ""
  {
    LStripAllSpace(s);
  }

  lemma {:induction false} LStripAllSpace(s: string)
    requires AllSpace(s)
    ensures LStrip(s) == ""
    decreases |s|
  {
    if |s| > 0 {
      LStripAllSpace(s[1..]);
    }
  }

  lemma NormalSlice(s: string, i: int, j: int)
    requires Normal(s) && 0 <= i <= j <= |s|
    ensures Normal(s[i..j])
  {
    var t := s[i..j];
    forall k | 0 <= k < |t| - 1
      ensures !(t[k] == ' ' && t[k + 1] == ' ')
    {
      assert t[k] == s[i + k] && t[k + 1] == s[i + k + 1];
    }
  }

  /** A normal string is a fixed point of whitespace collapsing. */
  lemma {:induction false} CollapseNormal(s: string)
    requires Normal(s)
    ensures Collapse(s) == s
    decreases |s|
  {
    if |s| > 0 {
      NormalSlice(s, 1, |s|);
      CollapseNormal(s[1..]);
      if IsSpace(s[0]) {
        assert |s| == 1 || !IsSpace(s[1]);
        assert LStrip(s[1..]) == s[1..];
      }
    }
  }

  lemma {:induction false} NonSpaceMembers(s: string)
    ensures forall d :: d in NonSpace(s) <==> d in s && !IsSpace(d)
    decreases |s|
  {
    if |s| > 0 {
      NonSpaceMembers(s[1..]);
      assert s == [s[0]] + s[1..];
    }
  }

  lemma CollapseMembers(s: string)
    ensures forall d :: !IsSpace(d) ==> (d in Collapse(s) <==> d in s)
  {
    CollapseNonSpace(s);
    NonSpaceMembers(s);
    NonSpaceMembers(Collapse(s));
  }

  lemma NoGlyphMembers(s: string)
    ensures NoGlyph(s) <==> CheckMark !in s && Warning !in s
  {
  }

  /** Without glyphs, the visible characters are the non-whitespace ones. */
  lemma {:induction false} VisibleNoGlyph(s: string)
    requires NoGlyph(s)
    ensures Visible(s) == NonSpace(s)
    decreases |s|
  {
    if |s| > 0 {
      VisibleNoGlyph(s[1..]);
    }
  }

  lemma NoGlyphCollapse(s: string)
    requires NoGlyph(s)
    ensures NoGlyph(Collapse(s))
  {
    CollapseMembers(s);
    NoGlyphMembers(s);
    NoGlyphMembers(Collapse(s));
  }

  /** Stripping keeps a glyph-free, normal string so. */
  lemma StripKeepsNormal(s: string)
    requires NoGlyph(s) && Normal(s)
    ensures NoGlyph(Strip(s)) && Normal(Strip(s))
  {
    var p, q := StripBounds(s);
    NormalSlice(s, p, q);
    var r := s[p..q];
    forall k | 0 <= k < |r| ensures !IsGlyph(r[k]) {
      assert r[k] == s[p + k];
    }
  }

  /** The bounds of the slice `str.strip()` keeps. */
  lemma StripBounds(s: string) returns (p: nat, q: nat)
    ensures p <= q <= |s| && Strip(s) == s[p..q]
    ensures AllSpace(s[..p]) && AllSpace(s[q..])
  {
    var l := LStrip(s);
    var r := RStrip(l);
    p := |s| - |l|;
    q := p + |r|;
    assert r == s[p..q];
    assert s[q..] == l[|r|..];
  }

  /** One step of Collapse, by the case of the first character. */
  lemma CollapseStep(s: string)
    requires |s| > 0
    ensures IsSpace(s[0]) ==> Collapse(s) == " " + Collapse(LStrip(s[1..]))
    ensures !IsSpace(s[0]) ==> Collapse(s) == [s[0]] + Collapse(s[1..])
  {
  }

  /** A leading non-whitespace character is copied, whatever follows it. */
  lemma CollapseCharStep(x: string, y: string)
    requires |x| > 0 && !IsSpace(x[0])
    ensures Collapse(x) == [x[0]] + Collapse(x[1..])
    ensures Collapse(x + y) == [x[0]] + Collapse(x[1..] + y)
  {
    ConsSplit(x, y);
    CollapseStep(x + y);
    CollapseStep(x);
  }

  /** Collapsing works piece by piece across a non-whitespace character. */
  lemma {:induction false} CollapseSplit(x: string, y: string)
    requires |x| > 0 && !IsSpace(x[|x| - 1])
    ensures Collapse(x + y) == Collapse(x) + Collapse(y)
    decreases |x|, 1
  {
    if IsSpace(x[0]) {
      CollapseSplitSpace(x, y);
    } else {
      CollapseSplitChar(x, y);
    }
  }

  lemma {:induction false} CollapseSplitChar(x: string, y: string)
    requires |x| > 0 && !IsSpace(x[0]) && !IsSpace(x[|x| - 1])
    ensures Collapse(x + y) == Collapse(x) + Collapse(y)
    decreases |x|, 0
  {
    if |x| == 1 {
      CollapseSingle(x, y);
    } else {
      var t := x[1..];
      CollapseCharStep(x, y);
      assert t[|t| - 1] == x[|x| - 1];
      CollapseSplit(t, y);
      ConcatAssoc([x[0]], Collapse(t), Collapse(y));
    }
  }

  /** A single non-whitespace character is copied in front of the rest. */
  lemma CollapseSingle(x: string, y: string)
    requires |x| == 1 && !IsSpace(x[0])
    ensures Collapse(x) == x
    ensures Collapse(x + y) == x + Collapse(y)
  {
    CollapseCharStep(x, y);
    assert x[1..] == "";
    assert x[1..] + y == y;
    assert [x[0]] == x;
  }

  lemma {:induction false} CollapseSplitSpace(x: string, y: string)
    requires |x| > 1 && IsSpace(x[0]) && !IsSpace(x[|x| - 1])
    ensures Collapse(x + y) == Collapse(x) + Collapse(y)
    decreases |x|, 0
  {
    var l := LStripTail(x);
    ConsSplit(x, y);
    CollapseStep(x + y);
    LStripAppend(x[1..], y);
    CollapseSplit(l, y);
    ConcatAssoc(" ", Collapse(l), Collapse(y));
  }

  /** What is left of `x` after its leading whitespace run still ends in
      `x`'s last character. */
  lemma LStripTail(x: string) returns (l: string)
    requires |x| > 1 && IsSpace(x[0]) && !IsSpace(x[|x| - 1])
    ensures l == LStrip(x[1..]) && |l| > 0 && !IsSpace(l[|l| - 1])
    ensures Collapse(x) == " " + Collapse(l)
  {
    var t := x[1..];
    assert t[|t| - 1] == x[|x| - 1];
    LStripKeepsLast(t);
    CollapseStep(x);
    l := LStrip(t);
  }

  lemma {:induction false} LStripKeepsLast(t: string)
    requires |t| > 0 && !IsSpace(t[|t| - 1])
    ensures |LStrip(t)| > 0 && LStrip(t)[|LStrip(t)| - 1] == t[|t| - 1]
    decreases |t|
  {
    if IsSpace(t[0]) {
      LStripKeepsLast(t[1..]);
    }
  }

  lemma {:induction false} LStripAppend(x: string, y: string)
    requires |x| > 0 && !IsSpace(x[|x| - 1])
    ensures LStrip(x + y) == LStrip(x) + y
    decreases |x|
  {
    if IsSpace(x[0]) {
      assert (x + y)[1..] == x[1..] + y;
      LStripAppend(x[1..], y);
    }
  }

  /** A run of whitespace in front of a non-whitespace character becomes one ' '. */
  lemma CollapseRun(w: string, y: string)
    requires |w| > 0 && AllSpace(w) && (|y| == 0 || !IsSpace(y[0]))
    ensures Collapse(w + y) == " " + Collapse(y)
  {
    var wy := w + y;
    assert wy[0] == w[0];
    assert IsSpace(wy[0]);
    assert wy[1..] == w[1..] + y;
    assert AllSpace(w[1..]);
    LStripRun(w[1..], y);
    assert LStrip(wy[1..]) == y;
  }

  lemma {:induction false} LStripRun(w: string, y: string)
    requires AllSpace(w) && (|y| == 0 || !IsSpace(y[0]))
    ensures LStrip(w + y) == y
    decreases |w|
  {
    if |w| > 0 {
      assert (w + y)[1..] == w[1..] + y;
      LStripRun(w[1..], y);
    } else {
      assert w + y == y;
    }
  }

  lemma VisibleCons(c: char, x: string)
    ensures Visible([c] + x) == (if VisibleChar(c) then [c] else "") + Visible(x)
  {
    assert ([c] + x)[1..] == x;
  }

  lemma {:induction false} CollapseKeepsLast(s: string)
    requires |s| > 0 && !IsSpace(s[|s| - 1])
    ensures |Collapse(s)| > 0 && Collapse(s)[|Collapse(s)| - 1] == s[|s| - 1]
    decreases |s|
  {
    if |s| == 1 {
      assert Collapse(s) == [s[0]] + Collapse(s[1..]);
    } else if IsSpace(s[0]) {
      var t := s[1..];
      LStripKeepsLast(t);
      CollapseKeepsLast(LStrip(t));
    } else {
      CollapseKeepsLast(s[1..]);
    }
  }

  /** Leading whitespace in front of stripped text is all `str.strip()` removes. */
  lemma StripLeading(w: string, x: string)
    requires AllSpace(w) && Stripped(x)
    ensures Strip(w + x) == x
  {
    LStripRun(w, x);
  }
}
