/**
 The text cleaning of `generate_answers`, in its five steps: strip the input,
 replace every match of `<[^>]+>` by a space, delete the two glyphs, turn each
 whitespace run into one space, and strip again.
 */
module Cleaning {
  import opened Wrappers
  import opened Text
  import opened Tags

  /** A string cleaning leaves as it is: no glyph, no tag, normal whitespace and
      none at either end. */
  ghost predicate IsClean(s: string) {
    NoGlyph(s) && NoTag(s) && Normal(s) && Stripped(s)
  }

  /** The three steps after tag replacement keep a tag-free string tag-free and
      produce a stripped, glyph-free, normalised string. */
  lemma AfterTags(u: string)
    requires NoTag(u)
    ensures IsClean(Strip(Collapse(RemoveGlyphs(u))))
  {
    var v := RemoveGlyphs(u);
    var w := Collapse(v);
    TagFreeIsNoTag(u);
    TagFreeRemoveGlyphs(u);
    TagFreeCollapse(v);
    TagFreeIsNoTag(w);
    NoGlyphCollapse(v);
    CollapseIsNormal(v);
    StripKeepsNormal(w);
    StripKeepsNoTag(w);
  }

  /** The cleaned text. */
  function Clean(s: string): string {
    Strip(Collapse(RemoveGlyphs(ReplaceTags(Strip(s)))))
  }

  /** The cleaned text has no glyph, no match of `<[^>]+>`, no whitespace at
      either end, no whitespace other than ' ' and no two adjacent spaces. */
  lemma CleanIsClean(s: string)
    ensures IsClean(Clean(s))
  {
    AfterTags(ReplaceTags(Strip(s)));
  }

  /** Cleaning leaves a string unchanged exactly when it is already clean. */
  lemma CleanFixpoint(s: string)
    ensures Clean(s) == s <==> IsClean(s)
  {
    CleanIsClean(s);
    if IsClean(s) {
      StripStripped(s);
      ReplaceTagsFixpoint(s);
      CollapseNormal(s);
    }
  }

  /** Cleaning is idempotent. */
  lemma CleanIdempotent(s: string)
    ensures Clean(Clean(s)) == Clean(s)
  {
    CleanIsClean(s);
    CleanFixpoint(Clean(s));
  }

  /** Nothing else changes: removing the single spaces from the cleaned text
      leaves exactly the characters of the input that are neither whitespace
      nor a glyph and lie outside every `<[^>]+>` match, in their original order. */
  lemma CleanKeeps(s: string)
    ensures NonSpace(Clean(s)) == Kept(s)
  {
    var t := Strip(s);
    var u := ReplaceTags(t);
    var v := RemoveGlyphs(u);
    var w := Collapse(v);
    CleanIsClean(s);
    VisibleNoGlyph(Clean(s));
    VisibleStrip(w);
    VisibleCollapse(v);
    VisibleRemoveGlyphs(u);
    ReplaceTagsKeeps(t);
    KeptStrip(s);
  }

  /** A word: a non-empty run of visible characters with no '<'. */
  predicate Word(a: string) {
    |a| > 0 && forall i :: 0 <= i < |a| ==> VisibleChar(a[i]) && a[i] != '<'
  }

  /** Text with no glyph, no '<' and no whitespace at either end. */
  predicate Plain(b: string) {
    && |b| > 0 && !IsSpace(b[0]) && !IsSpace(b[|b| - 1])
    && forall i :: 0 <= i < |b| ==> !IsGlyph(b[i]) && b[i] != '<'
  }

  /** When tag replacement on a stripped string already yields clean text, the
      later steps change nothing. */
  lemma CleanAfterTags(s: string)
    requires Stripped(s) && IsClean(ReplaceTags(s))
    ensures Clean(s) == ReplaceTags(s)
  {
    StripStripped(s);
    var u := ReplaceTags(s);
    CollapseNormal(u);
    StripStripped(u);
  }

  lemma PlainClean(b: string)
    requires Plain(b)
    ensures Clean(b) == Collapse(b)
  {
    StripStripped(b);
    NoOpenNoTag(b);
    ReplaceTagsFixpoint(b);
    assert NoGlyph(b);
    var w := Collapse(b);
    assert w[0] == b[0];
    CollapseKeepsLast(b);
    StripStripped(w);
  }

  lemma PlainJoin(a: string, w: string, b: string)
    requires Word(a) && AllSpace(w) && Plain(b)
    ensures Plain(a + w + b)
  {
    var s := a + w + b;
    assert s[0] == a[0];
    assert s[|s| - 1] == b[|b| - 1];
    forall i | 0 <= i < |s| ensures !IsGlyph(s[i]) && s[i] != '<' {
      if i < |a| {
        assert s[i] == a[i];
      } else if i < |a| + |w| {
        assert s[i] == w[i - |a|];
      } else {
        assert s[i] == b[i - |a| - |w|];
      }
    }
  }

  lemma CollapseJoin(a: string, w: string, b: string)
    requires Word(a) && |w| > 0 && AllSpace(w) && Plain(b)
    ensures Collapse(a + w + b) == a + " " + Collapse(b)
  {
    ConcatAssoc(a, w, b);
    CollapseSplit(a, w + b);
    CollapseRun(w, b);
    CollapseNormal(a);
  }

  /** A run of whitespace between a word and the rest of the text becomes one
      ' ': `Clean(a + w + b) == a + " " + Clean(b)`. */
  lemma CleanJoin(a: string, w: string, b: string)
    requires Word(a) && |w| > 0 && AllSpace(w) && Plain(b)
    ensures Clean(a + w + b) == a + " " + Clean(b)
  {
    PlainJoin(a, w, b);
    PlainClean(a + w + b);
    PlainClean(b);
    CollapseJoin(a, w, b);
  }

  lemma ReplaceTagBetween(c: char, x: string, d: char)
    requires c != '<' && |x| > 0 && '>' !in x
    ensures ReplaceTags([c] + "<" + x + ">" + [d]) == [c, ' ', d]
  {
    var s := [c] + "<" + x + ">" + [d];
    var n := |x|;
    assert TagEnd(s, 0) == None;
    assert ReplaceFrom(s, 0) == [c] + ReplaceFrom(s, 1);
    forall k | 1 < k < n + 2 ensures s[k] != '>' {
      assert s[k] == x[k - 2];
    }
    assert TagAt(s, 1, n + 2);
    ReplaceFromTag(s, 1, n + 2);
    assert TagEnd(s, n + 3) == None;
    assert ReplaceFrom(s, n + 3) == [d] + ReplaceFrom(s, n + 4);
  }

  /** A match between two visible characters becomes one space:
      `Clean(c + "<" + x + ">" + d) == c + " " + d`. */
  lemma CleanTagBecomesSpace(c: char, x: string, d: char)
    requires VisibleChar(c) && c != '<' && VisibleChar(d)
    requires |x| > 0 && '>' !in x
    ensures Clean([c] + "<" + x + ">" + [d]) == [c, ' ', d]
  {
    var s := [c] + "<" + x + ">" + [d];
    ReplaceTagBetween(c, x, d);
    var u := [c, ' ', d];
    assert IsClean(u);
    assert Stripped(s);
    CleanAfterTags(s);
  }

  lemma CleanTagExample()
    ensures Clean("a<b>c") == "a c"
  {
    assert "a<b>c" == ['a'] + "<" + "b" + ">" + ['c'];
    CleanTagBecomesSpace('a', "b", 'c');
  }

  /** `<>` is not a match of `<[^>]+>`, so it survives cleaning. */
  lemma CleanEmptyAngles()
    ensures Clean("<>") == "<>"
  {
    assert IsClean("<>");
    CleanFixpoint("<>");
  }

  /** Words with the whitespace runs that separate them, as they appear in the input. */
  function Spaced(words: seq<string>, gaps: seq<string>): string
    requires |words| > 0 && |gaps| == |words| - 1
    decreases |words|
  {
    if |words| == 1 then words[0]
    else words[0] + gaps[0] + Spaced(words[1..], gaps[1..])
  }

  /** Words joined by single spaces. */
  function JoinWords(words: seq<string>): string
    requires |words| > 0
    decreases |words|
  {
    if |words| == 1 then words[0] else words[0] + " " + JoinWords(words[1..])
  }

  lemma WordIsPlain(a: string)
    requires Word(a)
    ensures Plain(a) && Normal(a)
  {
  }

  lemma {:induction false} SpacedIsPlain(words: seq<string>, gaps: seq<string>)
    requires |words| > 0 && |gaps| == |words| - 1
    requires forall i :: 0 <= i < |words| ==> Word(words[i])
    requires forall i :: 0 <= i < |gaps| ==> AllSpace(gaps[i])
    ensures Plain(Spaced(words, gaps))
    decreases |words|
  {
    if |words| == 1 {
      WordIsPlain(words[0]);
    } else {
      SpacedIsPlain(words[1..], gaps[1..]);
      PlainJoin(words[0], gaps[0], Spaced(words[1..], gaps[1..]));
    }
  }

  /** Words separated by runs of whitespace come out joined by single spaces. */
  lemma {:induction false} CleanSpaced(words: seq<string>, gaps: seq<string>)
    requires |words| > 0 && |gaps| == |words| - 1
    requires forall i :: 0 <= i < |words| ==> Word(words[i])
    requires forall i :: 0 <= i < |gaps| ==> |gaps[i]| > 0 && AllSpace(gaps[i])
    ensures Clean(Spaced(words, gaps)) == JoinWords(words)
    decreases |words|
  {
    if |words| == 1 {
      WordIsPlain(words[0]);
      PlainClean(words[0]);
      CollapseNormal(words[0]);
    } else {
      CleanSpaced(words[1..], gaps[1..]);
      SpacedIsPlain(words[1..], gaps[1..]);
      CleanJoin(words[0], gaps[0], Spaced(words[1..], gaps[1..]));
    }
  }

  /** Four words and the three gaps between them, written out. */
  lemma SpacedFour(a: string, b: string, c: string, d: string, g1: string, g2: string, g3: string)
    ensures Spaced([a, b, c, d], [g1, g2, g3]) == a + g1 + b + g2 + c + g3 + d
  {
    var words, gaps := [a, b, c, d], [g1, g2, g3];
    assert words[1..] == [b, c, d] && gaps[1..] == [g2, g3];
    assert words[1..][1..] == [c, d] && gaps[1..][1..] == [g3];
    assert Spaced([c, d], [g3]) == c + g3 + d by {
      assert [c, d][1..] == [d];
    }
    assert Spaced([b, c, d], [g2, g3]) == b + g2 + (c + g3 + d);
    assert Spaced(words, gaps) == a + g1 + (b + g2 + (c + g3 + d));
    ConcatAssoc(b + g2, c + g3, d);
    ConcatAssoc(b, g2, c + g3);
    ConcatAssoc(a + g1, b + g2 + c + g3, d);
  }

  /** Four words joined by single spaces, written out. */
  lemma JoinFour(a: string, b: string, c: string, d: string)
    ensures JoinWords([a, b, c, d]) == a + " " + b + " " + c + " " + d
  {
    var words := [a, b, c, d];
    assert words[1..] == [b, c, d] && words[1..][1..] == [c, d];
    assert JoinWords([c, d]) == c + " " + d by {
      assert [c, d][1..] == [d];
    }
    assert JoinWords([b, c, d]) == b + " " + (c + " " + d);
    assert JoinWords(words) == a + " " + (b + " " + (c + " " + d));
    ConcatAssoc(b + " ", c + " ", d);
    ConcatAssoc(b, " ", c + " ");
    ConcatAssoc(a + " ", b + " " + c + " ", d);
  }

  /** The whitespace example: runs of spaces, a newline and a tab each become
      one space. */
  lemma CleanWhitespaceExample()
    ensures Clean("Multiple   spaces\n\tand tabs") == "Multiple spaces and tabs"
  {
    var a, b, c, d := "Multiple", "spaces", "and", "tabs";
    WhitespaceExampleText(a, b, c, d);
    var words, gaps := [a, b, c, d], ["   ", "\n\t", " "];
    SpacedFour(a, b, c, d, "   ", "\n\t", " ");
    JoinFour(a, b, c, d);
    WhitespaceExampleParts(words, gaps);
    CleanSpaced(words, gaps);
  }

  /** The example's input and output, spelled out word by word. Kept apart
      from the cleaning proof: comparing long string literals is costly for
      the solver when the cleaning functions are in view. */
  lemma WhitespaceExampleText(a: string, b: string, c: string, d: string)
    requires a == "Multiple" && b == "spaces" && c == "and" && d == "tabs"
    ensures a + "   " + b + "\n\t" + c + " " + d == "Multiple   spaces\n\tand tabs"
    ensures a + " " + b + " " + c + " " + d == "Multiple spaces and tabs"
  {
  }

  /** The words and gaps of the example have the shapes CleanSpaced needs. */
  lemma WhitespaceExampleParts(words: seq<string>, gaps: seq<string>)
    requires words == ["Multiple", "spaces", "and", "tabs"] && gaps == ["   ", "\n\t", " "]
    ensures forall i :: 0 <= i < |words| ==> Word(words[i])
    ensures forall i :: 0 <= i < |gaps| ==> |gaps[i]| > 0 && AllSpace(gaps[i])
  {
  }

  /** A run of characters other than '<' is copied unchanged. */
  lemma CopyPlain(s: string, i: nat, x: string)
    requires i + |x| <= |s| && s[i..i + |x|] == x && '<' !in x
    ensures ReplaceFrom(s, i) == x + ReplaceFrom(s, i + |x|)
  {
    forall k | i <= k < i + |x| ensures s[k] != '<' {
      assert s[k] == x[k - i];
    }
    ReplaceFromPlain(s, i, i + |x|);
  }

  /** A tag `<c>` or `</c>` at `i` becomes one space. */
  lemma ReplaceShortTag(s: string, i: nat, t: string)
    requires i + |t| <= |s| && s[i..i + |t|] == t
    requires t == "<b>" || t == "</b>"
    ensures ReplaceFrom(s, i) == " " + ReplaceFrom(s, i + |t|)
  {
    assert s[i] == t[0] && s[i + |t| - 1] == t[|t| - 1];
    forall k | i < k < i + |t| - 1 ensures s[k] != '>' {
      assert s[k] == t[k - i];
    }
    assert TagAt(s, i, i + |t| - 1);
    ReplaceFromTag(s, i, i + |t| - 1);
  }

  /** Where the pieces of `<b>a</b> b` sit. */
  lemma MarkupLayout(s: string, a: string, b: string)
    requires s == "<b>" + a + "</b>" + " " + b
    ensures s[0..3] == "<b>" && s[3..3 + |a|] == a
    ensures s[3 + |a|..3 + |a| + 4] == "</b>" && s[3 + |a| + 4..] == " " + b
  {
  }

  /** The scan steps over `<b>a</b> b`, one lemma per piece: the opening
      tag, the word, the closing tag and the rest. */
  lemma OpenTagStep(s: string, a: string, b: string)
    requires s == "<b>" + a + "</b>" + " " + b
    ensures ReplaceFrom(s, 0) == " " + ReplaceFrom(s, 3)
  {
    MarkupLayout(s, a, b);
    ReplaceShortTag(s, 0, "<b>");
  }

  lemma WordStep(s: string, a: string, b: string)
    requires '<' !in a && s == "<b>" + a + "</b>" + " " + b
    ensures ReplaceFrom(s, 3) == a + ReplaceFrom(s, 3 + |a|)
  {
    MarkupLayout(s, a, b);
    CopyPlain(s, 3, a);
  }

  lemma CloseTagStep(s: string, a: string, b: string)
    requires s == "<b>" + a + "</b>" + " " + b
    ensures ReplaceFrom(s, 3 + |a|) == " " + ReplaceFrom(s, 3 + |a| + 4)
  {
    MarkupLayout(s, a, b);
    ReplaceShortTag(s, 3 + |a|, "</b>");
  }

  lemma TailStep(s: string, a: string, b: string)
    requires '<' !in b && s == "<b>" + a + "</b>" + " " + b
    ensures ReplaceFrom(s, 3 + |a| + 4) == " " + b
  {
    MarkupLayout(s, a, b);
    var rest := " " + b;
    assert '<' !in rest;
    CopyPlain(s, 3 + |a| + 4, rest);
  }

  /** Chains the four scan steps of MarkupPairTags. Kept apart so that the
      rearranging of concatenations does not meet ReplaceFrom terms. */
  lemma JoinSteps(x0: string, x1: string, x2: string, x3: string, a: string, b: string)
    requires x0 == " " + x1 && x1 == a + x2 && x2 == " " + x3 && x3 == " " + b
    ensures x0 == " " + a + "  " + b
  {
  }

  /** The tags of `<b>a</b> b` each become one space. */
  lemma MarkupPairTags(s: string, a: string, b: string)
    requires '<' !in a && '<' !in b && s == "<b>" + a + "</b>" + " " + b
    ensures ReplaceTags(s) == " " + a + "  " + b
  {
    var n := 3 + |a|;
    OpenTagStep(s, a, b);
    WordStep(s, a, b);
    CloseTagStep(s, a, b);
    TailStep(s, a, b);
    JoinSteps(ReplaceFrom(s, 0), ReplaceFrom(s, 3), ReplaceFrom(s, n), ReplaceFrom(s, n + 4), a, b);
  }

  /** Markup around a word disappears and the words are joined by one space:
      `Clean("<b>" + a + "</b> " + b) == a + " " + b`. */
  lemma CleanMarkupPair(a: string, b: string)
    requires Word(a) && Word(b)
    ensures Clean("<b>" + a + "</b>" + " " + b) == a + " " + b
  {
    var s := "<b>" + a + "</b>" + " " + b;
    assert s[|s| - 1] == b[|b| - 1];
    StripStripped(s);
    assert '<' !in a && '<' !in b;
    MarkupPairTags(s, a, b);
    SpacedPair(" ", a, "  ", b);
  }

  /** Leading whitespace, a word, a run of whitespace and a word come out
      as the two words joined by one space. */
  lemma SpacedPair(w: string, a: string, g: string, b: string)
    requires |w| > 0 && AllSpace(w) && Word(a) && |g| > 0 && AllSpace(g) && Word(b)
    ensures Strip(Collapse(RemoveGlyphs(w + a + g + b))) == a + " " + b
  {
    WordIsPlain(b);
    PlainJoin(a, g, b);
    var p := a + g + b;
    assert w + a + g + b == w + p;
    forall i | 0 <= i < |w + p| ensures !IsGlyph((w + p)[i]) {
      if i < |w| {
        assert (w + p)[i] == w[i];
      } else {
        assert (w + p)[i] == p[i - |w|];
      }
    }
    CollapseRun(w, p);
    CollapseJoin(a, g, b);
    CollapseNormal(b);
    var x := a + " " + b;
    assert x[0] == a[0] && x[|x| - 1] == b[|b| - 1];
    StripLeading(" ", x);
  }

  /** The example's words have the shape CleanMarkupPair needs, and the
      literal facts are kept out of the cleaning proof. */
  lemma MarkupExampleParts(s: string, a: string, b: string)
    requires a == "Hello" && b == "World" && s == "<b>" + a + "</b>" + " " + b
    ensures Word(a) && Word(b) && a + " " + b == "Hello World"
  {
  }

  lemma CleanMarkupExample()
    ensures Clean("<b>Hello</b> World") == "Hello World"
  {
    var a, b := "Hello", "World";
    var s := "<b>" + a + "</b>" + " " + b;
    MarkupExampleParts(s, a, b);
    assert s == "<b>Hello</b> World";
    CleanMarkupPair(a, b);
  }
}
