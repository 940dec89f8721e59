/** `clean_html_tags`: the regular expression `<[^>]+>` as a left-to-right
    scan, the "fewer than three tags means plain text" guard, and the clean-up
    that deletes the tags, collapses whitespace runs and strips both ends. */
module Cleaner {
  import opened Text

  /** The fewest matches of `<[^>]+>` for which the text is cleaned at all. */
  const MinTags: nat := 3

  /** `t` is one whole match of `<[^>]+>`: a `<`, at least one character that
      is not `>`, and the `>` that closes it. */
  predicate IsTag(t: string) {
    && |t| >= 3
    && t[0] == '<'
    && t[|t| - 1] == '>'
    && forall k :: 1 <= k < |t| - 1 ==> t[k] != '>'
  }

  /** The length of the match of `<[^>]+>` that starts at the first character
      of `s`, or 0 when none starts there. The class `[^>]` takes any other
      character, line breaks and `<` included, so the match runs to the first
      `>` after the `<`, and fails when that `>` comes right after the `<` or
      when there is no `>` at all. A match, when there is one, is the only
      prefix of `s` that is a tag. */
  function TagAt(s: string): (n: nat)
    ensures n <= |s|
    ensures n > 0 ==> IsTag(s[..n])
    ensures forall m :: 0 < m <= |s| && IsTag(s[..m]) ==> m == n
  {
    if s == [] || s[0] != '<' then 0
    else
      var j := IndexOf(s[1..], '>') + 1;
      TagAtUnique(s, j);
      if 2 <= j < |s| then j + 1 else 0
  }

  lemma TagAtUnique(s: string, j: nat)
    requires s != [] && s[0] == '<' && j == IndexOf(s[1..], '>') + 1
    ensures forall m :: 0 < m <= |s| && IsTag(s[..m]) ==> 2 <= j < |s| && m == j + 1
  {
    forall m | 0 < m <= |s| && IsTag(s[..m]) ensures 2 <= j < |s| && m == j + 1 {
      var t := s[..m];
      assert s[m - 1] == t[m - 1] == '>';
      assert s[1..][m - 2] == '>';
      forall k | 0 <= k < m - 2 ensures s[1..][k] != '>' {
        assert s[1..][k] == t[k + 1];
      }
      IndexOfFirst(s[1..], '>', m - 2);
    }
  }

  /** When no match starts at the first character, and why: the text is
      empty, does not start with `<`, has no `>` after the `<`, or has one
      right after it. */
  lemma TagAtZero(s: string)
    ensures TagAt(s) == 0 <==>
      s == [] || s[0] != '<' || '>' !in s[1..] || (|s| >= 2 && s[1] == '>')
  {
    if s != [] && s[0] == '<' {
      var j := IndexOf(s[1..], '>') + 1;
      if j < |s| {
        assert s[1..][j - 1] == '>';
      }
    }
  }

  /** `re.findall(r'<[^>]+>', s)`: the matches found scanning from left to
      right, each attempt starting right after the previous match, or one
      character further on when no match starts at the current position. */
  function FindTags(s: string): (tags: seq<string>)
    ensures forall t :: t in tags ==> IsTag(t)
    decreases |s|
  {
    if s == [] then []
    else
      var n := TagAt(s);
      if n > 0 then [s[..n]] + FindTags(s[n..]) else FindTags(s[1..])
  }

  /** The total number of characters in `tags`. */
  function TotalLength(tags: seq<string>): nat
  {
    if tags == [] then 0 else |tags[0]| + TotalLength(tags[1..])
  }

  /** `re.sub(r'<[^>]+>', '', s)`: the matches `FindTags` reports are
      deleted, exactly their characters and no others; no new match is left
      behind, and no character is introduced. */
  function RemoveTags(s: string): (r: string)
    ensures |r| + TotalLength(FindTags(s)) == |s|
    ensures TagFree(r)
    ensures forall c :: c in r ==> c in s
    ensures s != [] && TagAt(s) == 0 ==> r != [] && r[0] == s[0]
    decreases |s|
  {
    if s == [] then []
    else
      var n := TagAt(s);
      if n > 0 then
        var rest := RemoveTags(s[n..]);
        assert forall c :: c in rest ==> c in s by {
          forall c | c in rest ensures c in s {
            var j :| 0 <= j < |s[n..]| && s[n..][j] == c;
            assert s[n + j] == c;
          }
        }
        rest
      else
        var rest := RemoveTags(s[1..]);
        KeptCharIsNotTag(s, rest);
        TagFreeCons([s[0]] + rest);
        assert ([s[0]] + rest)[1..] == rest;
        [s[0]] + rest
  }

  /** A character the scan steps over does not start a match in the output
      either: either no `>` follows it, and none survives, or a `>` follows it
      at once and survives with it. */
  lemma KeptCharIsNotTag(s: string, rest: string)
    requires s != [] && TagAt(s) == 0
    requires forall c :: c in rest ==> c in s[1..]
    requires |s| >= 2 && TagAt(s[1..]) == 0 ==> rest != [] && rest[0] == s[1]
    ensures TagAt([s[0]] + rest) == 0
  {
    TagAtZero(s);
    TagAtZero([s[0]] + rest);
    assert ([s[0]] + rest)[1..] == rest;
    if |s| >= 2 && s[1] == '>' {
      TagAtZero(s[1..]);
    }
  }

  /** The text the scan steps over: the part before the first match the scan
      reports, the parts between consecutive matches, and the part after the
      last one. There is one more gap than there are matches. */
  function Gaps(s: string): (gaps: seq<string>)
    ensures |gaps| == |FindTags(s)| + 1
    decreases |s|
  {
    if s == [] then [""]
    else
      var n := TagAt(s);
      if n > 0 then [""] + Gaps(s[n..])
      else
        var g := Gaps(s[1..]);
        [[s[0]] + g[0]] + g[1..]
  }

  /** The gaps and the matches put back in turn:
      `gaps[0] + tags[0] + gaps[1] + ... + tags[|tags| - 1] + gaps[|tags|]`. */
  function Interleave(gaps: seq<string>, tags: seq<string>): (t: string)
    requires |gaps| == |tags| + 1
    ensures |t| >= |gaps[0]|
    decreases |tags|
  {
    if tags == [] then gaps[0]
    else gaps[0] + tags[0] + Interleave(gaps[1..], tags[1..])
  }

  /** `gaps` and `tags` are what a left-to-right scan for `<[^>]+>` reports
      on the text they make up: no match starts at any position inside a gap
      (reading on into the rest of the text), and a non-empty match starts
      right where each gap ends and is the next element of `tags`. */
  predicate IsScan(gaps: seq<string>, tags: seq<string>)
    requires |gaps| == |tags| + 1
    decreases |tags|
  {
    var t := Interleave(gaps, tags);
    && (forall i :: 0 <= i < |gaps[0]| ==> TagAt(t[i..]) == 0)
    && (tags != [] ==>
          && |tags[0]| > 0
          && TagAt(t[|gaps[0]|..]) == |tags[0]|
          && IsScan(gaps[1..], tags[1..]))
  }

  /** Putting a character in front of the first gap puts it in front of the
      text. */
  lemma InterleaveCons(c: char, g: seq<string>, tags: seq<string>)
    requires |g| == |tags| + 1
    ensures Interleave([[c] + g[0]] + g[1..], tags) == [c] + Interleave(g, tags)
  {
    var h := [[c] + g[0]] + g[1..];
    assert h[0] == [c] + g[0] && h[1..] == g[1..];
    if tags != [] {
      var rest := Interleave(g[1..], tags[1..]);
      assert Interleave(h, tags) == ([c] + g[0]) + tags[0] + rest;
      assert Interleave(g, tags) == g[0] + tags[0] + rest;
    }
  }

  /** The scan cuts the text into gaps and matches and loses nothing. */
  lemma {:induction false} GapsInterleave(s: string)
    ensures Interleave(Gaps(s), FindTags(s)) == s
    decreases |s|
  {
    if s != [] {
      var n := TagAt(s);
      if n > 0 {
        var g := Gaps(s[n..]);
        var tags := FindTags(s[n..]);
        GapsInterleave(s[n..]);
        GapsStepTag(s);
        assert ([""] + g)[1..] == g;
        assert ([s[..n]] + tags)[1..] == tags;
        SliceSplit(s, n);
      } else {
        GapsInterleave(s[1..]);
        GapsStepOver(s);
        InterleaveCons(s[0], Gaps(s[1..]), FindTags(s[1..]));
        HeadTail(s);
      }
    }
  }

  /** What the scan finds, read through the gaps: the whole decomposition
      meets `IsScan`. */
  lemma {:induction false} GapsScan(s: string)
    ensures IsScan(Gaps(s), FindTags(s))
    decreases |s|
  {
    GapsInterleave(s);
    if s != [] {
      var n := TagAt(s);
      if n > 0 {
        var g := Gaps(s[n..]);
        var tags := FindTags(s[n..]);
        GapsScan(s[n..]);
        assert ([""] + g)[1..] == g;
        assert ([s[..n]] + tags)[1..] == tags;
        assert s[0..] == s;
      } else {
        var g := Gaps(s[1..]);
        var tags := FindTags(s[1..]);
        GapsScan(s[1..]);
        GapsInterleave(s[1..]);
        ScanStepOver(s, g, tags);
      }
    }
  }

  /** The scan step over a character at which no match starts. */
  lemma ScanStepOver(s: string, g: seq<string>, tags: seq<string>)
    requires s != [] && TagAt(s) == 0
    requires |g| == |tags| + 1 && IsScan(g, tags) && Interleave(g, tags) == s[1..]
    requires Interleave([[s[0]] + g[0]] + g[1..], tags) == s
    ensures IsScan([[s[0]] + g[0]] + g[1..], tags)
  {
    var h := [[s[0]] + g[0]] + g[1..];
    assert h[0] == [s[0]] + g[0] && h[1..] == g[1..];
    forall i | 0 <= i < |h[0]| ensures TagAt(s[i..]) == 0 {
      if i > 0 {
        assert s[i..] == s[1..][i - 1..];
      }
    }
    if tags != [] {
      assert s[|h[0]|..] == s[1..][|g[0]|..];
    }
  }

  /** The scan is the only decomposition of the text that meets `IsScan`:
      the gaps and matches are determined by the text. */
  lemma {:induction false} ScanUnique(s: string, gaps: seq<string>, tags: seq<string>)
    requires |gaps| == |tags| + 1 && IsScan(gaps, tags) && Interleave(gaps, tags) == s
    ensures gaps == Gaps(s) && tags == FindTags(s)
    decreases |s|
  {
    if gaps[0] != [] {
      var g := ScanDropFirst(s, gaps, tags);
      ScanUnique(s[1..], g, tags);
      GapsStepOver(s);
    } else if tags == [] {
      assert s == gaps[0];
    } else {
      var n := ScanTagFirst(s, gaps, tags);
      ScanUnique(s[n..], gaps[1..], tags[1..]);
      GapsStepTag(s);
      HeadTail(gaps);
      HeadTail(tags);
    }
  }

  /** One step of the scan over a character at which no match starts. */
  lemma GapsStepOver(s: string)
    requires s != [] && TagAt(s) == 0
    ensures Gaps(s) == [[s[0]] + Gaps(s[1..])[0]] + Gaps(s[1..])[1..]
    ensures FindTags(s) == FindTags(s[1..])
  {
  }

  /** One step of the scan over a match. */
  lemma GapsStepTag(s: string)
    requires TagAt(s) > 0
    ensures Gaps(s) == [""] + Gaps(s[TagAt(s)..])
    ensures FindTags(s) == [s[..TagAt(s)]] + FindTags(s[TagAt(s)..])
  {
  }

  /** A decomposition meeting `IsScan` whose first gap is non-empty: no match
      starts at the first character, and dropping that character from the
      first gap gives a decomposition of the rest meeting `IsScan`. */
  lemma ScanDropFirst(s: string, gaps: seq<string>, tags: seq<string>) returns (g: seq<string>)
    requires |gaps| == |tags| + 1 && IsScan(gaps, tags) && Interleave(gaps, tags) == s
    requires gaps[0] != []
    ensures s != [] && TagAt(s) == 0
    ensures |g| == |gaps| && gaps == [[s[0]] + g[0]] + g[1..]
    ensures Interleave(g, tags) == s[1..] && IsScan(g, tags)
  {
    assert TagAt(s[0..]) == 0;
    assert s[0..] == s;
    g := [gaps[0][1..]] + gaps[1..];
    assert g[0] == gaps[0][1..] && g[1..] == gaps[1..];
    HeadTail(gaps[0]);
    HeadTail(gaps);
    InterleaveCons(gaps[0][0], g, tags);
    var t := Interleave(g, tags);
    assert t == s[1..];
    forall i | 0 <= i < |g[0]| ensures TagAt(t[i..]) == 0 {
      assert t[i..] == s[i + 1..];
    }
    if tags != [] {
      assert t[|g[0]|..] == s[|gaps[0]|..];
    }
  }

  /** A decomposition meeting `IsScan` whose first gap is empty and that has
      a match: the match starts at the first character, and the rest of the
      decomposition meets `IsScan` on the rest of the text. */
  lemma ScanTagFirst(s: string, gaps: seq<string>, tags: seq<string>) returns (n: nat)
    requires |gaps| == |tags| + 1 && IsScan(gaps, tags) && Interleave(gaps, tags) == s
    requires gaps[0] == [] && tags != []
    ensures n == |tags[0]| && 0 < n <= |s| && TagAt(s) == n && s[..n] == tags[0]
    ensures Interleave(gaps[1..], tags[1..]) == s[n..] && IsScan(gaps[1..], tags[1..])
  {
    n := |tags[0]|;
    var rest := Interleave(gaps[1..], tags[1..]);
    assert s == tags[0] + rest;
    assert s[0..] == s;
    assert s[..n] == tags[0] && s[n..] == rest;
  }

  /** Deleting the matches leaves exactly the gaps, in order. */
  lemma {:induction false} RemoveTagsIsGaps(s: string)
    ensures RemoveTags(s) == Concat(Gaps(s))
    decreases |s|
  {
    if s != [] {
      var n := TagAt(s);
      RemoveTagsStep(s);
      if n > 0 {
        RemoveTagsIsGaps(s[n..]);
        GapsStepTag(s);
        ConcatEmptyFirst(Gaps(s[n..]));
      } else {
        RemoveTagsIsGaps(s[1..]);
        GapsStepOver(s);
        ConcatFirstGap(s[0], Gaps(s[1..]));
      }
    }
  }

  /** One step of `RemoveTags`. */
  lemma RemoveTagsStep(s: string)
    requires s != []
    ensures TagAt(s) > 0 ==> RemoveTags(s) == RemoveTags(s[TagAt(s)..])
    ensures TagAt(s) == 0 ==> RemoveTags(s) == [s[0]] + RemoveTags(s[1..])
  {
  }

  lemma ConcatEmptyFirst(g: seq<string>)
    ensures Concat([""] + g) == Concat(g)
  {
    assert ([""] + g)[1..] == g;
  }

  lemma ConcatFirstGap(c: char, g: seq<string>)
    requires g != []
    ensures Concat([[c] + g[0]] + g[1..]) == [c] + Concat(g)
  {
    var h := [[c] + g[0]] + g[1..];
    assert h[0] == [c] + g[0] && h[1..] == g[1..];
    var x := Concat(g[1..]);
    assert Concat(h) == ([c] + g[0]) + x;
    assert Concat(g) == g[0] + x;
    AppendAssoc([c], g[0], x);
  }

  /** No match of `<[^>]+>` starts anywhere in `s`. */
  predicate TagFree(s: string) {
    forall i :: 0 <= i < |s| ==> TagAt(s[i..]) == 0
  }

  lemma TagFreeCons(s: string)
    requires s != []
    ensures TagFree(s) <==> TagAt(s) == 0 && TagFree(s[1..])
  {
    if TagAt(s) == 0 && TagFree(s[1..]) {
      forall i | 0 <= i < |s| ensures TagAt(s[i..]) == 0 {
        if i > 0 {
          assert s[i..] == s[1..][i - 1..];
        }
      }
    }
    if TagFree(s) {
      forall i | 0 <= i < |s| - 1 ensures TagAt(s[1..][i..]) == 0 {
        assert s[1..][i..] == s[i + 1..];
      }
      assert s[0..] == s;
    }
  }

  /** The scan finds nothing exactly when no match starts anywhere. */
  lemma {:induction false} FindTagsEmpty(s: string)
    ensures FindTags(s) == [] <==> TagFree(s)
    decreases |s|
  {
    if s != [] {
      FindTagsEmpty(s[1..]);
      TagFreeCons(s);
    }
  }

  lemma TagFreeSuffix(s: string, k: nat)
    requires TagFree(s) && k <= |s|
    ensures TagFree(s[k..])
  {
    forall i | 0 <= i < |s| - k ensures TagAt(s[k..][i..]) == 0 {
      assert s[k..][i..] == s[k + i..];
    }
  }

  lemma TagAtPrefix(s: string, m: nat)
    requires TagAt(s) == 0 && m <= |s|
    ensures TagAt(s[..m]) == 0
  {
    TagAtZero(s);
    TagAtZero(s[..m]);
    if m >= 1 {
      assert s[..m][1..] == s[1..m];
      assert forall c :: c in s[1..m] ==> c in s[1..];
    }
  }

  lemma TagFreePrefix(s: string, k: nat)
    requires TagFree(s) && k <= |s|
    ensures TagFree(s[..k])
  {
    forall i | 0 <= i < k ensures TagAt(s[..k][i..]) == 0 {
      assert s[..k][i..] == s[i..][..k - i];
      TagAtPrefix(s[i..], k - i);
    }
  }

  /** Collapsing whitespace cannot create a match: it keeps every `<` and
      `>` and what directly follows a `<`. */
  lemma {:induction false} TagFreeCollapse(s: string)
    requires TagFree(s)
    ensures TagFree(Collapse(s))
    decreases |s|
  {
    if s != [] {
      TagFreeCons(s);
      var r := Collapse(s);
      if IsSpace(s[0]) {
        var t := LStrip(s[1..]);
        TagFreeSuffix(s[1..], |s[1..]| - |t|);
        TagFreeCollapse(t);
        assert r[1..] == Collapse(t);
        TagFreeCons(r);
      } else {
        var rest := Collapse(s[1..]);
        TagFreeCollapse(s[1..]);
        assert r == [s[0]] + rest && r[1..] == rest;
        TagAtZero(s);
        TagAtZero(r);
        if s[0] == '<' && '>' in rest {
          CollapseChars(s[1..], '>');
        }
        TagFreeCons(r);
      }
    }
  }

  /** Stripping the ends keeps a text free of matches. */
  lemma TagFreeStrip(s: string)
    requires TagFree(s)
    ensures TagFree(Strip(s))
  {
    var r := Strip(s);
    StripIsSlice(s);
    var a :| StripsTo(s, r, a);
    TagFreeSuffix(s, a);
    TagFreePrefix(s[a..], |r|);
    assert s[a..][..|r|] == r;
  }

  /** Stripping the ends keeps whitespace single-spaced. */
  lemma SingleSpacedStrip(s: string)
    requires SingleSpaced(s)
    ensures SingleSpaced(Strip(s))
  {
    var t := LStrip(s);
    var r := RStrip(t);
    assert Strip(s) == r;
    StripSlice(s, t, r);
    SingleSpacedSlice(s, |s| - |t|, r);
  }

  /** `clean_html_tags(text)`. With fewer than `MinTags` matches of
      `<[^>]+>` the text is returned as it is. Otherwise the result is the
      words of the text left once the matches are deleted, joined by single
      spaces: it holds no match at all, each whitespace run has become one
      plain space, and there is no whitespace at either end. It is never
      longer than the input. */
  function Clean(text: string): (r: string)
    ensures |FindTags(text)| < MinTags ==> r == text
    ensures |FindTags(text)| >= MinTags ==> r == Join(Words(RemoveTags(text)), " ")
    ensures |FindTags(text)| >= MinTags ==>
      FindTags(r) == [] && SingleSpaced(r) && Trimmed(r)
    ensures |r| <= |text|
  {
    if |FindTags(text)| < MinTags then text
    else
      var removed := RemoveTags(text);
      var collapsed := Collapse(removed);
      var r := Strip(collapsed);
      TagFreeCollapse(removed);
      TagFreeStrip(collapsed);
      FindTagsEmpty(r);
      CollapseIsSingleSpaced(removed);
      SingleSpacedStrip(collapsed);
      WordsJoined(removed);
      r
  }

  /** Cleaning twice is cleaning once. */
  lemma CleanIdempotent(text: string)
    ensures Clean(Clean(text)) == Clean(text)
  {
  }

  /** A cleaned text that was actually cleaned holds no line break, so
      splitting it on `'\n'` gives one line. */
  lemma CleanedHasNoNewline(text: string)
    requires |FindTags(text)| >= MinTags
    ensures '\n' !in Clean(text)
  {
    var r := Clean(text);
    assert forall i :: 0 <= i < |r| && IsSpace(r[i]) ==> r[i] == ' ';
    assert IsSpace('\n');
  }
}
