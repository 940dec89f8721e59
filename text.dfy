/** The Python string built-ins that `clean_html_tags` and `generate_response`
    rely on, as functions over `string` (a sequence of Unicode code points,
    which is what a Python `str` is): `str.isspace`, `str.strip`, `str.split()`,
    `str.split(sep)`, `sep.join`, `str.startswith`, the `in` operator on
    strings, slicing `s[:n]` and `str.lower`. */
module Text {

  /** `str.isspace` for one character, which is also what the `\s` class of
      `re` and the no-argument forms of `str.strip` and `str.split` treat as
      whitespace: the ASCII controls TAB..CR, the separators U+001C..U+001F,
      SPACE, NEL, NO-BREAK SPACE and the Unicode space separators. */
  predicate IsSpace(c: char) {
    var n := c as int;
    || 0x09 <= n <= 0x0D
    || 0x1C <= n <= 0x20
    || n == 0x85 || n == 0xA0 || n == 0x1680
    || 0x2000 <= n <= 0x200A
    || n == 0x2028 || n == 0x2029 || n == 0x202F || n == 0x205F || n == 0x3000
  }

  /** No character of `s` is whitespace. */
  predicate NoSpace(s: string) {
    forall i :: 0 <= i < |s| ==> !IsSpace(s[i])
  }

  /** `s` neither starts nor ends with whitespace. */
  predicate Trimmed(s: string) {
    s == [] || (!IsSpace(s[0]) && !IsSpace(s[|s| - 1]))
  }

  /** Every whitespace character of `s` is a plain space and is not followed
      by another whitespace character: what `re.sub(r'\s+', ' ', _)` leaves. */
  predicate SingleSpaced(s: string) {
    && (forall i :: 0 <= i < |s| && IsSpace(s[i]) ==> s[i] == ' ')
    && (forall i, j :: 0 <= i < |s| && 0 <= j < |s| && j == i + 1 ==> !(IsSpace(s[i]) && IsSpace(s[j])))
  }

  /** The characters of `s` that are not whitespace, in order. */
  function NonSpace(s: string): (r: string)
    ensures |r| <= |s|
  {
    if s == [] then []
    else (if IsSpace(s[0]) then [] else [s[0]]) + NonSpace(s[1..])
  }

  lemma {:induction false} NonSpaceAppend(a: string, b: string)
    ensures NonSpace(a + b) == NonSpace(a) + NonSpace(b)
  {
    if a == [] {
      EmptyAppend(a, b);
    } else {
      ConsAppend(a, b);
      NonSpaceAppend(a[1..], b);
    }
  }

  /** `s.lstrip()`: drops the leading whitespace, and nothing else. */
  function LStrip(s: string): (r: string)
    ensures |r| <= |s| && r == s[|s| - |r|..]
    ensures forall i :: 0 <= i < |s| - |r| ==> IsSpace(s[i])
    ensures r == [] || !IsSpace(r[0])
  {
    if s != [] && IsSpace(s[0]) then
      var r := LStrip(s[1..]);
      DropFirst(s, |s| - 1 - |r|);
      r
    else s
  }

  /** Dropping leading whitespace drops no other character. */
  lemma {:induction false} LStripKeepsText(s: string)
    ensures NonSpace(LStrip(s)) == NonSpace(s)
    decreases |s|
  {
    if s != [] && IsSpace(s[0]) {
      LStripKeepsText(s[1..]);
      assert NonSpace(s) == [] + NonSpace(s[1..]);
    }
  }

  /** `s.rstrip()`: drops the trailing whitespace, and nothing else. */
  function RStrip(s: string): (r: string)
    ensures |r| <= |s| && r == s[..|r|]
    ensures forall i :: |r| <= i < |s| ==> IsSpace(s[i])
    ensures r == [] || !IsSpace(r[|r| - 1])
  {
    if s != [] && IsSpace(s[|s| - 1]) then
      var r := RStrip(s[..|s| - 1]);
      TakeAllButLast(s, |r|);
      r
    else s
  }

  /** `r` is what is left of `s` once the whitespace runs at both of its
      ends are cut off, `r` starting at index `a` of `s`. */
  predicate StripsTo(s: string, r: string, a: int) {
    && 0 <= a <= |s| - |r|
    && r == s[a..a + |r|]
    && (forall i :: 0 <= i < a ==> IsSpace(s[i]))
    && (forall i :: a + |r| <= i < |s| ==> IsSpace(s[i]))
  }

  /** `s.strip()`: the result is the slice of `s` left once the whitespace
      at both ends is cut off. */
  function Strip(s: string): (r: string)
    ensures |r| <= |s|
    ensures Trimmed(r)
  {
    RStrip(LStrip(s))
  }

  /** What `Strip` leaves is the slice of `s` between its leading and its
      trailing whitespace. */
  lemma StripIsSlice(s: string)
    ensures exists a :: StripsTo(s, Strip(s), a)
  {
    var t := LStrip(s);
    assert Strip(s) == RStrip(t);
    StripSlice(s, t, RStrip(t));
  }

  lemma StripSlice(s: string, t: string, r: string)
    requires |t| <= |s| && t == s[|s| - |t|..]
    requires forall i :: 0 <= i < |s| - |t| ==> IsSpace(s[i])
    requires |r| <= |t| && r == t[..|r|]
    requires forall i :: |r| <= i < |t| ==> IsSpace(t[i])
    ensures StripsTo(s, r, |s| - |t|)
  {
    var a := |s| - |t|;
    assert r == s[a..a + |r|];
    forall i | a + |r| <= i < |s| ensures IsSpace(s[i]) {
      assert s[i] == t[i - a];
    }
  }

  /** Cutting the whitespace off a string that has none at its ends changes
      nothing. */
  lemma StripTrimmed(s: string)
    requires Trimmed(s)
    ensures Strip(s) == s
  {
    assert LStrip(s) == s;
  }

  /** `re.sub(r'\s+', ' ', s)`: every maximal run of whitespace becomes one
      plain space. */
  function Collapse(s: string): (r: string)
    ensures |r| <= |s|
    ensures s != [] ==> r != [] && r[0] == (if IsSpace(s[0]) then ' ' else s[0])
    decreases |s|
  {
    if s == [] then []
    else if IsSpace(s[0]) then [' '] + Collapse(LStrip(s[1..]))
    else [s[0]] + Collapse(s[1..])
  }

  /** What collapsing leaves is single-spaced. */
  lemma {:induction false} CollapseIsSingleSpaced(s: string)
    ensures SingleSpaced(Collapse(s))
    decreases |s|
  {
    if s != [] {
      var tail := if IsSpace(s[0]) then LStrip(s[1..]) else s[1..];
      var h := if IsSpace(s[0]) then ' ' else s[0];
      CollapseIsSingleSpaced(tail);
      assert Collapse(s) == [h] + Collapse(tail);
      SingleSpacedCons(h, Collapse(tail));
    }
  }

  lemma SingleSpacedCons(h: char, c: string)
    requires SingleSpaced(c)
    requires IsSpace(h) ==> h == ' ' && (c == [] || !IsSpace(c[0]))
    ensures SingleSpaced([h] + c)
  {
    var r := [h] + c;
    forall i | 0 <= i < |r| && IsSpace(r[i]) ensures r[i] == ' ' {
      if i > 0 {
        assert r[i] == c[i - 1];
      }
    }
    forall i, j | 0 <= i < |r| && 0 <= j < |r| && j == i + 1
      ensures !(IsSpace(r[i]) && IsSpace(r[j]))
    {
      if i > 0 {
        assert r[i] == c[i - 1] && r[j] == c[j - 1];
      }
    }
  }

  /** A slice of a single-spaced text is single-spaced. */
  lemma SingleSpacedSlice(s: string, a: nat, r: string)
    requires SingleSpaced(s) && a + |r| <= |s| && r == s[a..a + |r|]
    ensures SingleSpaced(r)
  {
    forall i | 0 <= i < |r| && IsSpace(r[i]) ensures r[i] == ' ' {
      assert r[i] == s[a + i];
    }
    forall i, j | 0 <= i < |r| && 0 <= j < |r| && j == i + 1
      ensures !(IsSpace(r[i]) && IsSpace(r[j]))
    {
      assert r[i] == s[a + i] && r[j] == s[a + j];
    }
  }

  /** Collapsing whitespace keeps every other character, in order. */
  lemma {:induction false} CollapseKeepsText(s: string)
    ensures NonSpace(Collapse(s)) == NonSpace(s)
    decreases |s|
  {
    if s != [] {
      if IsSpace(s[0]) {
        var tail := LStrip(s[1..]);
        CollapseKeepsText(tail);
        LStripKeepsText(s[1..]);
        NonSpaceCons(' ', Collapse(tail));
      } else {
        CollapseKeepsText(s[1..]);
        NonSpaceCons(s[0], Collapse(s[1..]));
      }
    }
  }

  lemma NonSpaceCons(c: char, x: string)
    ensures NonSpace([c] + x) == (if IsSpace(c) then [] else [c]) + NonSpace(x)
  {
    assert ([c] + x)[0] == c && ([c] + x)[1..] == x;
  }

  /** A character survives whitespace removal exactly when it is in the
      text and is not whitespace. */
  lemma {:induction false} NonSpaceMember(s: string, c: char)
    ensures c in NonSpace(s) <==> c in s && !IsSpace(c)
  {
    if s != [] {
      NonSpaceMember(s[1..], c);
      assert s == [s[0]] + s[1..];
    }
  }

  /** Collapsing whitespace introduces no character other than a space. */
  lemma CollapseChars(s: string, c: char)
    requires c in Collapse(s) && c != ' '
    ensures c in s
  {
    var r := Collapse(s);
    CollapseKeepsText(s);
    CollapseIsSingleSpaced(s);
    NonSpaceMember(r, c);
    NonSpaceMember(s, c);
  }

  /** Collapsing whitespace a second time changes nothing. */
  lemma {:induction false} CollapseSingleSpaced(s: string)
    requires SingleSpaced(s)
    ensures Collapse(s) == s
    decreases |s|
  {
    if s != [] {
      var t := s[1..];
      SingleSpacedSlice(s, 1, t);
      CollapseSingleSpaced(t);
      HeadTail(s);
      if IsSpace(s[0]) {
        assert s[0] == ' ';
        if t != [] {
          assert t[0] == s[1];
          assert !IsSpace(s[1]);
        }
        LStripText(t);
      }
    }
  }

  /** A non-empty sequence is its first element followed by the rest. */
  lemma HeadTail<T>(s: seq<T>)
    requires s != []
    ensures s == [s[0]] + s[1..]
  {
  }

  /** The index of the first `c` in `s`, or `|s|` when there is none. */
  function IndexOf(s: string, c: char): (k: nat)
    ensures k <= |s|
    ensures k < |s| ==> s[k] == c
    ensures forall i :: 0 <= i < k ==> s[i] != c
  {
    if s == [] || s[0] == c then 0 else 1 + IndexOf(s[1..], c)
  }

  /** The index of the first whitespace character of `s`, or `|s|`. */
  function SpaceIndex(s: string): (k: nat)
    ensures k <= |s|
    ensures k < |s| ==> IsSpace(s[k])
    ensures NoSpace(s[..k])
  {
    if s == [] || IsSpace(s[0]) then 0 else 1 + SpaceIndex(s[1..])
  }

  /** `sep.join(parts)`. */
  function Join(parts: seq<string>, sep: string): string
  {
    if |parts| == 0 then ""
    else if |parts| == 1 then parts[0]
    else parts[0] + sep + Join(parts[1..], sep)
  }

  /** `s.split(sep)` for a one-character separator: the pieces between the
      occurrences of `sep`, empty pieces included. There is always at least
      one piece, none holds `sep`, and joining them back with `sep` gives `s`. */
  function Split(s: string, sep: char): (parts: seq<string>)
    ensures |parts| >= 1
    ensures forall p :: p in parts ==> sep !in p
    ensures Join(parts, [sep]) == s
    decreases |s|
  {
    var k := IndexOf(s, sep);
    if k == |s| then [s]
    else
      var rest := Split(s[k + 1..], sep);
      assert s == s[..k] + [sep] + s[k + 1..];
      assert ([s[..k]] + rest)[1..] == rest;
      [s[..k]] + rest
  }

  /** A string without the separator is one piece. */
  lemma SplitWithoutSeparator(s: string, sep: char)
    requires sep !in s
    ensures Split(s, sep) == [s]
  {
    assert IndexOf(s, sep) == |s|;
  }

  /** Splitting undoes joining, when no part holds the separator. */
  lemma {:induction false} SplitJoin(parts: seq<string>, sep: char)
    requires |parts| >= 1
    requires forall p :: p in parts ==> sep !in p
    ensures Split(Join(parts, [sep]), sep) == parts
  {
    if |parts| == 1 {
      SplitWithoutSeparator(parts[0], sep);
    } else {
      var p := parts[0];
      assert p in parts;
      var tail := Join(parts[1..], [sep]);
      assert Join(parts, [sep]) == p + [sep] + tail;
      PieceThenRest(p, sep, tail);
      SplitJoin(parts[1..], sep);
      HeadTail(parts);
    }
  }

  /** In `p + [sep] + tail`, with no `sep` in `p`, the first `sep` closes `p`. */
  lemma PieceThenRest(p: string, sep: char, tail: string)
    requires sep !in p
    ensures var s := p + [sep] + tail;
      && IndexOf(s, sep) == |p|
      && s[..|p|] == p
      && s[|p| + 1..] == tail
  {
    var s := p + [sep] + tail;
    forall i | 0 <= i < |p| ensures s[i] != sep {
      assert s[i] == p[i];
    }
    IndexOfFirst(s, sep, |p|);
    assert s[..|p|] == p;
    assert s[|p| + 1..] == tail;
  }

  lemma {:induction false} IndexOfFirst(s: string, c: char, k: nat)
    requires k < |s| && s[k] == c
    requires forall i :: 0 <= i < k ==> s[i] != c
    ensures IndexOf(s, c) == k
  {
    if k > 0 {
      IndexOfFirst(s[1..], c, k - 1);
    }
  }

  /** `s.split()`: the maximal runs of non-whitespace characters of `s`, in
      order. */
  function Words(s: string): (ws: seq<string>)
    ensures forall w :: w in ws ==> w != [] && NoSpace(w)
    decreases |s|
  {
    var t := LStrip(s);
    if t == [] then []
    else
      var k := SpaceIndex(t);
      [t[..k]] + Words(t[k..])
  }

  /** The words hold every non-whitespace character of the text, in order. */
  lemma {:induction false} WordsKeepText(s: string)
    ensures Concat(Words(s)) == NonSpace(s)
    decreases |s|
  {
    var t := LStrip(s);
    LStripKeepsText(s);
    if t != [] {
      var k := SpaceIndex(t);
      var w, rest := t[..k], t[k..];
      var ws, wsRest := Words(s), Words(rest);
      assert ws == [w] + wsRest;
      WordsKeepText(rest);
      NoSpaceIsNonSpace(w);
      SliceSplit(t, k);
      NonSpaceAppend(w, rest);
      ConcatStep(w, ws, wsRest, NonSpace(rest), NonSpace(s));
    }
  }

  lemma EmptyAppend<T>(a: seq<T>, b: seq<T>)
    requires a == []
    ensures a + b == b
  {
  }

  lemma ConsAppend<T>(a: seq<T>, b: seq<T>)
    requires a != []
    ensures (a + b)[0] == a[0] && (a + b)[1..] == a[1..] + b
  {
  }

  /** Indexing into `s[1..]` is indexing into `s` one further on. */
  lemma DropFirst<T>(s: seq<T>, k: nat)
    requires 1 <= |s| && k <= |s| - 1
    ensures s[1..][k..] == s[k + 1..]
    ensures forall i :: 0 <= i < |s| - 1 ==> s[1..][i] == s[i + 1]
  {
  }

  /** Indexing into `s[..|s| - 1]` is indexing into `s`. */
  lemma TakeAllButLast<T>(s: seq<T>, k: nat)
    requires 1 <= |s| && k <= |s| - 1
    ensures s[..|s| - 1][..k] == s[..k]
    ensures forall i :: 0 <= i < |s| - 1 ==> s[..|s| - 1][i] == s[i]
  {
  }

  /** Dropping the last element of `a + b`, for a non-empty `b`. */
  lemma DropLast<T>(a: seq<T>, b: seq<T>)
    requires b != []
    ensures (a + b)[..|a + b| - 1] == a + b[..|b| - 1]
    ensures (a + b)[|a + b| - 1] == b[|b| - 1]
  {
  }

  /** Concatenation is associative. */
  lemma AppendAssoc<T>(x: seq<T>, y: seq<T>, z: seq<T>)
    ensures (x + y) + z == x + (y + z)
  {
  }

  /** A string is its prefix followed by the rest. */
  lemma SliceSplit(t: string, k: nat)
    requires k <= |t|
    ensures t == t[..k] + t[k..]
  {
  }

  lemma ConcatStep(w: string, ws: seq<string>, wsRest: seq<string>, tailText: string, text: string)
    requires ws == [w] + wsRest && Concat(wsRest) == tailText && text == w + tailText
    ensures Concat(ws) == text
  {
    assert ws[1..] == wsRest;
  }

  /** The concatenation of a sequence of strings. */
  function Concat(parts: seq<string>): string
  {
    if parts == [] then "" else parts[0] + Concat(parts[1..])
  }

  lemma {:induction false} NoSpaceIsNonSpace(s: string)
    requires NoSpace(s)
    ensures NonSpace(s) == s
  {
    if s != [] {
      assert NoSpace(s[1..]);
      NoSpaceIsNonSpace(s[1..]);
    }
  }

  /** `' '.join(s.split()) == re.sub(r'\s+', ' ', s).strip()`: the words of
      a text, joined by single spaces, are the text with its whitespace runs
      collapsed and its ends stripped. */
  lemma WordsJoined(s: string)
    ensures Join(Words(s), " ") == Strip(Collapse(s))
  {
    var t := LStrip(s);
    assert LStrip(t) == t;
    assert Words(s) == Words(t);
    CollapseLStrip(s);
    WordsJoinedTrimmed(t);
  }

  lemma CollapseLStrip(s: string)
    ensures LStrip(Collapse(s)) == Collapse(LStrip(s))
  {
    if s != [] && IsSpace(s[0]) {
      var t := LStrip(s[1..]);
      var x := Collapse(t);
      assert LStrip(s) == t;
      assert Collapse(s) == [' '] + x;
      LStripSpaceThenText(x);
    } else if s != [] {
      LStripText(s);
      LStripText(Collapse(s));
    }
  }

  lemma LStripText(x: string)
    requires x == [] || !IsSpace(x[0])
    ensures LStrip(x) == x
  {
  }

  lemma LStripSpaceThenText(x: string)
    requires x == [] || !IsSpace(x[0])
    ensures LStrip([' '] + x) == x
  {
    assert ([' '] + x)[1..] == x;
  }

  lemma {:induction false} WordsJoinedTrimmed(t: string)
    requires t == [] || !IsSpace(t[0])
    ensures Join(Words(t), " ") == RStrip(Collapse(t))
    decreases |t|
  {
    if t != [] {
      var k := SpaceIndex(t);
      var t2 := LStrip(t[k..]);
      if t2 != [] {
        WordsJoinedTrimmed(t2);
      }
      WordsJoinedStep(t, k);
    }
  }

  lemma WordsJoinedStep(t: string, k: nat)
    requires t != [] && !IsSpace(t[0]) && k == SpaceIndex(t)
    requires var t2 := LStrip(t[k..]);
      t2 != [] ==> Join(Words(t2), " ") == RStrip(Collapse(t2))
    ensures Join(Words(t), " ") == RStrip(Collapse(t))
  {
    var w := t[..k];
    var t2 := LStrip(t[k..]);
    WordsStep(t, k);
    CollapseStep(t, k);
    assert w != [] && !IsSpace(w[|w| - 1]);
    if t2 == [] {
      assert Words(t2) == [] && Collapse(t2) == [];
      LastWord(w, Words(t), Collapse(t), k == |t|);
    } else {
      var ws2, c2 := Words(t2), Collapse(t2);
      WordsNonEmpty(t2);
      assert c2[0] == t2[0];
      JoinedWordAndRest(w, ws2, c2);
      assert k < |t|;
      assert Collapse(t) == w + ([' '] + c2);
    }
  }

  lemma WordsNonEmpty(s: string)
    requires LStrip(s) != []
    ensures Words(s) != []
  {
  }

  lemma LastWord(w: string, ws: seq<string>, c: string, whole: bool)
    requires w != [] && !IsSpace(w[|w| - 1])
    requires ws == [w] + []
    requires c == w + (if whole then [] else [' '] + [])
    ensures Join(ws, " ") == RStrip(c)
  {
    assert ws == [w];
    if !whole {
      assert c[..|w|] == w;
    }
  }

  lemma JoinedWordAndRest(w: string, ws: seq<string>, c: string)
    requires w != [] && !IsSpace(w[|w| - 1])
    requires ws != [] && c != [] && !IsSpace(c[0])
    requires Join(ws, " ") == RStrip(c)
    ensures Join([w] + ws, " ") == RStrip(w + ([' '] + c))
  {
    RStripAppend(w + [' '], c);
    assert w + ([' '] + c) == w + [' '] + c;
    assert ([w] + ws)[1..] == ws;
  }

  /** The words of a text that starts with a word: that word, then the
      words of what follows it. */
  lemma WordsStep(t: string, k: nat)
    requires t != [] && !IsSpace(t[0]) && k == SpaceIndex(t)
    ensures Words(t) == [t[..k]] + Words(LStrip(t[k..]))
  {
    var t2 := LStrip(t[k..]);
    assert LStrip(t) == t;
    assert LStrip(t2) == t2;
    assert Words(t[k..]) == Words(t2);
  }

  /** Collapsing a text that starts with a word keeps the word, then one
      space for the run after it, then what follows collapsed. */
  lemma CollapseStep(t: string, k: nat)
    requires k <= |t| && NoSpace(t[..k]) && (k < |t| ==> IsSpace(t[k]))
    ensures Collapse(t) == t[..k] + (if k == |t| then [] else [' '] + Collapse(LStrip(t[k..])))
  {
    var rest := t[k..];
    assert t == t[..k] + rest;
    CollapseNoSpacePrefix(t[..k], rest);
    if k < |t| {
      CollapseSpaceRun(rest);
    }
  }

  lemma CollapseSpaceRun(s: string)
    requires s != [] && IsSpace(s[0])
    ensures Collapse(s) == [' '] + Collapse(LStrip(s))
  {
    assert LStrip(s) == LStrip(s[1..]);
  }

  lemma {:induction false} CollapseNoSpacePrefix(w: string, x: string)
    requires NoSpace(w)
    ensures Collapse(w + x) == w + Collapse(x)
  {
    if w == [] {
      EmptyAppend(w, x);
    } else {
      var w' := w[1..];
      assert w + x == [w[0]] + (w' + x);
      assert !IsSpace(w[0]) && NoSpace(w');
      CollapseCons(w[0], w' + x);
      CollapseNoSpacePrefix(w', x);
      assert w == [w[0]] + w';
    }
  }

  lemma CollapseCons(c: char, x: string)
    requires !IsSpace(c)
    ensures Collapse([c] + x) == [c] + Collapse(x)
  {
    assert ([c] + x)[1..] == x;
  }

  lemma {:induction false} RStripAppend(p: string, x: string)
    requires RStrip(x) != []
    ensures RStrip(p + x) == p + RStrip(x)
    decreases |x|
  {
    if IsSpace(x[|x| - 1]) {
      assert (p + x)[..|p + x| - 1] == p + x[..|x| - 1];
      RStripAppend(p, x[..|x| - 1]);
    }
  }

  /** `s.startswith(prefix)`. */
  predicate StartsWith(s: string, prefix: string) {
    |prefix| <= |s| && s[..|prefix|] == prefix
  }

  /** `sub` occurs in `s` at index `i`. */
  predicate OccursAt(s: string, sub: string, i: int) {
    0 <= i && i + |sub| <= |s| && s[i..i + |sub|] == sub
  }

  /** What occurs inside an occurrence occurs in the text. */
  lemma OccursWithin(s: string, sub: string, i: int, j: nat, part: string)
    requires OccursAt(s, sub, i)
    requires j + |part| <= |sub| && sub[j..j + |part|] == part
    ensures OccursAt(s, part, i + j)
  {
    forall k | 0 <= k < |part| ensures s[i + j + k] == part[k] {
      assert part[k] == sub[j..j + |part|][k] == sub[j + k];
      assert sub[j + k] == s[i..i + |sub|][j + k] == s[i + j + k];
    }
    assert s[i + j..i + j + |part|] == part;
  }

  /** `sub in s`: `sub` occurs in `s` as a contiguous slice at some index
      (the empty string occurs everywhere). */
  predicate Contains(s: string, sub: string) {
    exists i :: 0 <= i <= |s| - |sub| && OccursAt(s, sub, i)
  }

  /** `s[:n]`: the first `n` characters of `s`, or all of it when it is
      shorter. */
  function Take(s: string, n: nat): (r: string)
    ensures |r| == if |s| <= n then |s| else n
    ensures StartsWith(s, r)
  {
    if |s| <= n then s else s[..n]
  }

  /** `str.lower` for one character: ASCII, Latin-1 and Latin Extended-A
      capitals become their small letters, and U+0130 (capital I with dot
      above) becomes "i" followed by U+0307 (combining dot above), as Python
      does. The Kelvin sign U+212A becomes "k" and the Angstrom sign U+212B
      becomes "å", as Python does.
      Every other character is left as it is. */
  function LowerChar(c: char): (r: string)
    ensures 1 <= |r| <= 2
  {
    var n := c as int;
    if 'A' <= c <= 'Z' then [(n + 32) as char]
    else if 0xC0 <= n <= 0xDE && n != 0xD7 then [(n + 32) as char]
    else if n == 0x130 then ['i', '\U{307}']
    else if 0x100 <= n <= 0x137 && n % 2 == 0 then [(n + 1) as char]
    else if 0x139 <= n <= 0x148 && n % 2 == 1 then [(n + 1) as char]
    else if 0x14A <= n <= 0x177 && n % 2 == 0 then [(n + 1) as char]
    else if n == 0x178 then ['\U{FF}']
    else if 0x179 <= n <= 0x17E && n % 2 == 1 then [(n + 1) as char]
    else if n == 0x212A then ['k']
    else if n == 0x212B then ['\U{E5}']
    else [c]
  }

  /** `s.lower()`, character by character. */
  function Lower(s: string): (r: string)
    ensures |r| >= |s|
  {
    if s == [] then [] else LowerChar(s[0]) + Lower(s[1..])
  }

  lemma {:induction false} LowerAppend(a: string, b: string)
    ensures Lower(a + b) == Lower(a) + Lower(b)
  {
    if a == [] {
      EmptyAppend(a, b);
    } else {
      ConsAppend(a, b);
      LowerAppend(a[1..], b);
    }
  }

  /** Every character `LowerChar` produces is already lower case. */
  lemma LowerCharIsLower(c: char)
    ensures Lower(LowerChar(c)) == LowerChar(c)
  {
    var r := LowerChar(c);
    if |r| == 2 {
      assert r == ['i'] + ['\U{307}'];
      LowerAppend(['i'], ['\U{307}']);
    } else {
      assert r == [r[0]] && Lower([r[0]]) == LowerChar(r[0]) + Lower([]);
    }
  }

  /** Lowering is idempotent. */
  lemma {:induction false} LowerIdempotent(s: string)
    ensures Lower(Lower(s)) == Lower(s)
  {
    if s != [] {
      LowerAppend(LowerChar(s[0]), Lower(s[1..]));
      LowerCharIsLower(s[0]);
      LowerIdempotent(s[1..]);
    }
  }

  /** Lowering never produces a dotless i (U+0131) that was not already in
      the text: in particular upper-case "I" lowers to "i", not "ı". */
  lemma {:induction false} LowerDotlessI(s: string)
    ensures '\U{131}' in Lower(s) <==> '\U{131}' in s
  {
    if s != [] {
      LowerDotlessI(s[1..]);
      assert s == [s[0]] + s[1..];
      assert '\U{131}' in LowerChar(s[0]) <==> s[0] == '\U{131}';
    }
  }
}
