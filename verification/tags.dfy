/**
 The tag step of the text cleaning in `generate_answers`: every leftmost,
 non-overlapping match of the regular expression `<[^>]+>` is replaced by one
 space.
 */
module Tags {
  import opened Wrappers
  import opened Text

  /** `s[a..b + 1]` is a match of `<[^>]+>`: a '<', at least one character that
      is not '>', and the '>' that closes it. */
  ghost predicate TagAt(s: string, a: int, b: int) {
    && 0 <= a && a + 1 < b < |s|
    && s[a] == '<' && s[b] == '>'
    && forall k :: a < k < b ==> s[k] != '>'
  }

  /** No substring of `s` matches `<[^>]+>`. */
  ghost predicate NoTag(s: string) {
    forall a, b :: !TagAt(s, a, b)
  }

  /** Position `j` of `s` lies inside some match of `<[^>]+>`. */
  ghost predicate InTag(s: string, j: int) {
    exists a, b :: TagAt(s, a, b) && a <= j <= b
  }

  /** The first '>' of `s` at or after position `j`. */
  function CloseFrom(s: string, j: nat): (r: Option<nat>)
    ensures r.Some? ==> j <= r.value < |s| && s[r.value] == '>'
                        && forall k :: j <= k < r.value ==> s[k] != '>'
    ensures r.None? ==> forall k :: j <= k < |s| ==> s[k] != '>'
    decreases |s| - j
  {
    if j >= |s| then None
    else if s[j] == '>' then Some(j)
    else CloseFrom(s, j + 1)
  }

  /** Where the regex engine's match starting at `i` ends, if one starts there.
      `[^>]+` is greedy, so a match needs a non-'>' character right after the '<'
      and ends at the first '>' that follows. */
  function TagEnd(s: string, i: nat): (r: Option<nat>)
    ensures r.Some? <==> exists b :: TagAt(s, i, b)
    ensures r.Some? ==> TagAt(s, i, r.value)
  {
    if i + 1 < |s| && s[i] == '<' && s[i + 1] != '>' then
      var r := CloseFrom(s, i + 2);
      if r.None? then
        assert forall b :: !TagAt(s, i, b) by {
          forall b ensures !TagAt(s, i, b) {
            if i + 2 <= b < |s| {
              assert s[b] != '>';
            }
          }
        }
        r
      else
        assert TagAt(s, i, r.value);
        r
    else
      None
  }

  /** The scan `re.sub` performs from position `i` onwards: a match starting
      at `i` is replaced by one space and the scan resumes after it; otherwise
      the character at `i` is copied. */
  function ReplaceFrom(s: string, i: nat): (r: string)
    requires i <= |s|
    ensures |r| <= |s| - i
    decreases |s| - i
  {
    if i == |s| then ""
    else
      match TagEnd(s, i)
      case Some(b) => " " + ReplaceFrom(s, b + 1)
      case None => [s[i]] + ReplaceFrom(s, i + 1)
  }

  /** The scan leaves no match behind: a '<' it copies is last, is followed by
      '>', or has no '>' after it. */
  lemma {:induction false} ReplaceFromTagFree(s: string, i: nat)
    requires i <= |s|
    ensures TagFree(ReplaceFrom(s, i))
    decreases |s| - i
  {
    if i < |s| {
      match TagEnd(s, i)
      case Some(b) =>
        ReplaceFromTagFree(s, b + 1);
        var rest := ReplaceFrom(s, b + 1);
        assert (" " + rest)[1..] == rest;
      case None =>
        ReplaceFromTagFree(s, i + 1);
        var rest := ReplaceFrom(s, i + 1);
        assert ([s[i]] + rest)[1..] == rest;
        if s[i] == '<' && i + 1 < |s| {
          if s[i + 1] == '>' {
            ReplaceFromLeadingClose(s, i + 1);
          } else {
            assert CloseFrom(s, i + 2).None?;
            ReplaceFromNoClose(s, i + 1);
          }
        }
    }
  }

  /** Without a '>' ahead, the scan emits none. */
  lemma {:induction false} ReplaceFromNoClose(s: string, i: nat)
    requires i <= |s| && forall k :: i <= k < |s| ==> s[k] != '>'
    ensures '>' !in ReplaceFrom(s, i)
    decreases |s| - i
  {
    if i < |s| {
      assert TagEnd(s, i) == None;
      ReplaceFromNoClose(s, i + 1);
      assert ReplaceFrom(s, i) == [s[i]] + ReplaceFrom(s, i + 1);
    }
  }

  /** A '>' where the scan stands is copied first. */
  lemma ReplaceFromLeadingClose(s: string, i: nat)
    requires i < |s| && s[i] == '>'
    ensures |ReplaceFrom(s, i)| > 0 && ReplaceFrom(s, i)[0] == '>'
  {
    assert TagEnd(s, i) == None;
    assert ReplaceFrom(s, i) == [s[i]] + ReplaceFrom(s, i + 1);
  }

  /** `re.sub(r"<[^>]+>", " ", s)`. */
  function ReplaceTags(s: string): (r: string)
    ensures NoTag(r)
  {
    var r := ReplaceFrom(s, 0);
    ReplaceFromTagFree(s, 0);
    TagFreeIsNoTag(r);
    r
  }

  /** A scan-friendly form of `NoTag`: every '<' is last, is followed by '>', or
      has no '>' anywhere after it. */
  predicate TagFree(s: string)
    decreases |s|
  {
    |s| == 0 || ((s[0] == '<' ==> |s| == 1 || s[1] == '>' || '>' !in s) && TagFree(s[1..]))
  }

  /** Matches of `<[^>]+>` inside a slice are exactly the matches of the whole
      string that lie within the slice. */
  lemma TagAtSlice(s: string, i: int, j: int, a: int, b: int)
    requires 0 <= i <= a <= b < j <= |s|
    ensures TagAt(s[i..j], a - i, b - i) <==> TagAt(s, a, b)
  {
    var t := s[i..j];
    if a + 1 < b {
      assert forall k :: a < k < b ==> s[k] == t[k - i];
    }
  }

  lemma NoTagSlice(s: string, i: int, j: int)
    requires NoTag(s) && 0 <= i <= j <= |s|
    ensures NoTag(s[i..j])
  {
    forall a, b ensures !TagAt(s[i..j], a, b) {
      if 0 <= a <= b < j - i {
        TagAtSlice(s, i, j, a + i, b + i);
      }
    }
  }

  /** A '<' followed by a non-'>' and, later, some '>' starts a match. */
  lemma OpenWithClose(s: string)
    requires |s| > 1 && s[0] == '<' && s[1] != '>' && '>' in s
    ensures CloseFrom(s, 2).Some? && TagAt(s, 0, CloseFrom(s, 2).value)
  {
    var k :| 0 <= k < |s| && s[k] == '>';
  }

  lemma {:induction false} TagFreeIsNoTag(s: string)
    ensures TagFree(s) <==> NoTag(s)
    decreases |s|
  {
    if |s| > 0 {
      TagFreeIsNoTag(s[1..]);
      assert s[1..|s|] == s[1..];
      if TagFree(s) {
        forall a, b ensures !TagAt(s, a, b) {
          if 0 < a <= b < |s| {
            TagAtSlice(s, 1, |s|, a, b);
          } else if a == 0 && 1 < b < |s| && s[b] == '>' && s[0] == '<' {
            assert s[b] in s;
            assert s[1] == '>';
          }
        }
      }
      if NoTag(s) {
        NoTagSlice(s, 1, |s|);
        assert TagFree(s[1..]);
        if s[0] == '<' && |s| > 1 && s[1] != '>' && '>' in s {
          OpenWithClose(s);
        }
      }
    }
  }

  lemma {:induction false} TagFreeSuffix(s: string, k: nat)
    requires TagFree(s) && k <= |s|
    ensures TagFree(s[k..])
    decreases k
  {
    if k > 0 {
      TagFreeSuffix(s[1..], k - 1);
      assert s[1..][k - 1..] == s[k..];
    }
  }

  /** Deleting a character other than '<' and '>' cannot create a tag. */
  lemma {:induction false} TagFreeDeleteChar(s: string, c: char)
    requires TagFree(s) && c != '<' && c != '>'
    ensures TagFree(DeleteChar(s, c))
    decreases |s|
  {
    if |s| > 0 {
      TagFreeDeleteChar(s[1..], c);
      var rest := DeleteChar(s[1..], c);
      if s[0] == c {
        assert DeleteChar(s, c) == rest;
      } else {
        var r := [s[0]] + rest;
        assert DeleteChar(s, c) == r;
        assert r[1..] == rest;
        if s[0] == '<' {
          if |s| == 1 {
            assert rest == "";
          } else if s[1] == '>' {
            assert rest[0] == '>';
            assert r[1] == '>';
          } else {
            assert '>' !in s[1..];
            assert '>' !in rest;
            assert '>' !in r;
          }
        }
      }
    }
  }

  lemma TagFreeRemoveGlyphs(s: string)
    requires TagFree(s)
    ensures TagFree(RemoveGlyphs(s))
  {
    TagFreeDeleteChar(s, CheckMark);
    TagFreeDeleteChar(DeleteChar(s, CheckMark), Warning);
  }

  /** Collapsing whitespace cannot create a tag. */
  lemma {:induction false} TagFreeCollapse(s: string)
    requires TagFree(s)
    ensures TagFree(Collapse(s))
    decreases |s|
  {
    if |s| > 0 {
      if IsSpace(s[0]) {
        var rest := LStrip(s[1..]);
        TagFreeSuffix(s, |s| - |rest|);
        assert rest == s[|s| - |rest|..];
        TagFreeCollapse(rest);
        assert (" " + Collapse(rest))[1..] == Collapse(rest);
      } else {
        TagFreeSuffix(s, 1);
        TagFreeCollapse(s[1..]);
        var rest := Collapse(s[1..]);
        assert ([s[0]] + rest)[1..] == rest;
        if s[0] == '<' && '>' !in s {
          assert '>' !in s[1..];
          CollapseMembers(s[1..]);
          assert '>' !in rest;
        }
      }
    }
  }

  /** A string with no match is left unchanged by the scan. */
  lemma {:induction false} ReplaceFromNoTag(s: string, i: nat)
    requires NoTag(s) && i <= |s|
    ensures ReplaceFrom(s, i) == s[i..]
    decreases |s| - i
  {
    if i < |s| {
      ReplaceFromNoTag(s, i + 1);
      assert s[i..] == [s[i]] + s[i + 1..];
    }
  }

  /** Tag replacement changes a string exactly when it contains a match; with
      `ReplaceTags`' own contract this makes it idempotent. */
  lemma ReplaceTagsFixpoint(s: string)
    ensures ReplaceTags(s) == s <==> NoTag(s)
  {
    if NoTag(s) {
      ReplaceFromNoTag(s, 0);
    }
  }

  /** Two matches that start inside one another end at the same '>': a match
      always ends at the first '>' after its '<'. */
  lemma TagsNest(s: string, a: int, b: int, a': int, b': int)
    requires TagAt(s, a, b) && TagAt(s, a', b') && a <= a' < b
    ensures b' == b
  {
  }

  /** No match straddles position `i`: the scan can resume there. */
  ghost predicate Boundary(s: string, i: int) {
    forall a, b :: TagAt(s, a, b) && a < i ==> b < i
  }

  /** The visible characters of `s[i..]` that lie outside every match of
      `<[^>]+>` in `s`, in order. */
  ghost function KeptFrom(s: string, i: nat): string
    decreases |s| - i
  {
    if i >= |s| then "" else KeptAt(s, i) + KeptFrom(s, i + 1)
  }

  /** The character at `i` if it is visible and outside every match. */
  ghost function KeptAt(s: string, i: nat): string
    requires i < |s|
  {
    if VisibleChar(s[i]) && !InTag(s, i) then [s[i]] else ""
  }

  /** The visible characters of `s` outside every match, in order. */
  ghost function Kept(s: string): string {
    KeptFrom(s, 0)
  }

  lemma {:induction false} KeptSkip(s: string, i: nat, b: nat)
    requires i <= b + 1 <= |s|
    requires forall j :: i <= j <= b ==> InTag(s, j)
    ensures KeptFrom(s, i) == KeptFrom(s, b + 1)
    decreases b + 1 - i
  {
    if i <= b {
      KeptSkip(s, i + 1, b);
    }
  }

  lemma BoundaryAfterTag(s: string, i: nat, b: int)
    requires Boundary(s, i) && TagAt(s, i, b)
    ensures Boundary(s, b + 1)
    ensures forall j :: i <= j <= b ==> InTag(s, j)
  {
    forall a', b' | TagAt(s, a', b') && a' < b + 1 ensures b' < b + 1 {
      if i <= a' {
        TagsNest(s, i, b, a', b');
      }
    }
  }

  lemma BoundaryAfterChar(s: string, i: nat)
    requires Boundary(s, i) && i < |s| && forall b :: !TagAt(s, i, b)
    ensures Boundary(s, i + 1)
    ensures !InTag(s, i)
  {
  }

  lemma {:induction false} ReplaceKeeps(s: string, i: nat)
    requires i <= |s| && Boundary(s, i)
    ensures Visible(ReplaceFrom(s, i)) == KeptFrom(s, i)
    decreases |s| - i, 1
  {
    if i < |s| {
      match TagEnd(s, i)
      case Some(b) => ReplaceKeepsTag(s, i, b);
      case None => ReplaceKeepsChar(s, i);
    }
  }

  /** A replaced match adds nothing visible and keeps nothing. */
  lemma {:induction false} ReplaceKeepsTag(s: string, i: nat, b: nat)
    requires i < |s| && Boundary(s, i) && TagEnd(s, i) == Some(b)
    ensures Visible(ReplaceFrom(s, i)) == KeptFrom(s, i)
    decreases |s| - i, 0
  {
    BoundaryAfterTag(s, i, b);
    KeptSkip(s, i, b);
    ReplaceKeeps(s, b + 1);
    ReplaceFromTag(s, i, b);
    VisibleCons(' ', ReplaceFrom(s, b + 1));
  }

  /** A copied character outside every match is kept exactly when visible. */
  lemma {:induction false} ReplaceKeepsChar(s: string, i: nat)
    requires i < |s| && Boundary(s, i) && TagEnd(s, i) == None
    ensures Visible(ReplaceFrom(s, i)) == KeptFrom(s, i)
    decreases |s| - i, 0
  {
    BoundaryAfterChar(s, i);
    ReplaceKeeps(s, i + 1);
    var rest := ReplaceFrom(s, i + 1);
    assert ReplaceFrom(s, i) == [s[i]] + rest;
    VisibleCons(s[i], rest);
    assert KeptAt(s, i) == (if VisibleChar(s[i]) then [s[i]] else "");
  }

  /** What tag replacement keeps: exactly the visible characters outside every
      match, in their original order (the rest of its output is spaces). */
  lemma ReplaceTagsKeeps(s: string)
    ensures Visible(ReplaceTags(s)) == Kept(s)
  {
    ReplaceKeeps(s, 0);
  }

  /** Trimming whitespace margins does not move any match boundary. */
  lemma InTagSlice(s: string, p: int, q: int, k: int)
    requires 0 <= p <= q <= |s| && AllSpace(s[..p]) && AllSpace(s[q..])
    requires 0 <= k < q - p
    ensures InTag(s[p..q], k) <==> InTag(s, p + k)
  {
    if InTag(s[p..q], k) {
      var a, b :| TagAt(s[p..q], a, b) && a <= k <= b;
      TagAtSlice(s, p, q, a + p, b + p);
    }
    if InTag(s, p + k) {
      var a, b :| TagAt(s, a, b) && a <= p + k <= b;
      AllSpacePrefix(s, p);
      AllSpaceSuffix(s, q);
      TagAtSlice(s, p, q, a, b);
    }
  }

  lemma {:induction false} KeptSpaceRun(s: string, i: nat, j: nat)
    requires i <= j <= |s| && forall k :: i <= k < j ==> IsSpace(s[k])
    ensures KeptFrom(s, i) == KeptFrom(s, j)
    decreases j - i
  {
    if i < j {
      assert KeptAt(s, i) == "";
      KeptSpaceRun(s, i + 1, j);
    }
  }

  lemma {:induction false} KeptSliceFrom(s: string, p: int, q: int, k: nat)
    requires 0 <= p <= q <= |s| && AllSpace(s[..p]) && AllSpace(s[q..])
    requires k <= q - p
    ensures KeptFrom(s[p..q], k) == KeptFrom(s, p + k)
    decreases q - p - k
  {
    if k < q - p {
      KeptAtSlice(s, p, q, k);
      KeptSliceFrom(s, p, q, k + 1);
    } else {
      AllSpaceSuffix(s, q);
      KeptSpaceRun(s, q, |s|);
    }
  }

  lemma KeptAtSlice(s: string, p: int, q: int, k: nat)
    requires 0 <= p <= q <= |s| && AllSpace(s[..p]) && AllSpace(s[q..])
    requires k < q - p
    ensures KeptAt(s[p..q], k) == KeptAt(s, p + k)
  {
    assert s[p..q][k] == s[p + k];
    InTagSlice(s, p, q, k);
  }

  /** Stripping whitespace first does not change what tag replacement keeps. */
  lemma KeptStrip(s: string)
    ensures Kept(Strip(s)) == Kept(s)
  {
    var p, q := StripBounds(s);
    KeptSliceFrom(s, p, q, 0);
    AllSpacePrefix(s, p);
    KeptSpaceRun(s, 0, p);
  }

  lemma StripKeepsNoTag(s: string)
    requires NoTag(s)
    ensures NoTag(Strip(s))
  {
    var p, q := StripBounds(s);
    NoTagSlice(s, p, q);
  }

  /** Without a '<' there is nothing to match. */
  lemma NoOpenNoTag(s: string)
    requires '<' !in s
    ensures NoTag(s)
  {
    forall a, b ensures !TagAt(s, a, b) {
      if 0 <= a < |s| {
        assert s[a] in s;
      }
    }
  }

  /** Each match is replaced by exactly one space: it is not deleted. */
  lemma ReplaceFromTag(s: string, i: nat, b: int)
    requires TagAt(s, i, b)
    ensures ReplaceFrom(s, i) == " " + ReplaceFrom(s, b + 1)
  {
    var e := TagEnd(s, i);
    TagsNest(s, i, b, i, e.value);
  }

  /** Characters up to the next '<' are copied unchanged. */
  lemma {:induction false} ReplaceFromPlain(s: string, i: nat, j: nat)
    requires i <= j <= |s| && forall k :: i <= k < j ==> s[k] != '<'
    ensures ReplaceFrom(s, i) == s[i..j] + ReplaceFrom(s, j)
    decreases j - i
  {
    if i < j {
      ReplaceFromCopy(s, i);
      ReplaceFromPlain(s, i + 1, j);
      assert s[i..j] == [s[i]] + s[i + 1..j];
      ConcatAssoc([s[i]], s[i + 1..j], ReplaceFrom(s, j));
    }
  }

  /** A character that cannot open a match is copied. */
  lemma ReplaceFromCopy(s: string, i: nat)
    requires i < |s| && s[i] != '<'
    ensures ReplaceFrom(s, i) == [s[i]] + ReplaceFrom(s, i + 1)
  {
    assert TagEnd(s, i) == None;
  }
}
