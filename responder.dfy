/** `generate_response`: the template answer built without a language model.
    The retrieved context is cleaned and cut into lines; the lines that look
    like prose are kept; the first five of them (or, when there are none, the
    start of the cleaned context) are cut to a length that depends on which
    keyword group the question mentions first, and a fixed note is added. */
module Responder {
  import opened Text
  import opened Cleaner

  /** A stripped line shorter than this is never kept. */
  const MinLineLength: nat := 10
  /** A kept line has more whitespace-separated words than this. */
  const MinWords: nat := 3
  /** At most this many kept lines make up the answer's body. */
  const MaxLines: nat := 5
  /** How much of the cleaned context the body falls back to. */
  const FallbackLength: nat := 500
  /** A line starting with this is a link. */
  const LinkPrefix: string := "http"
  /** A line whose lower-cased text contains this is a badge. */
  const BadgeWord: string := "badge"

  /** The filter of the line loop: long enough, not a link, not a badge,
      and more than three words. */
  predicate IsMeaningful(line: string) {
    && |line| >= MinLineLength
    && !StartsWith(line, LinkPrefix)
    && !Contains(Lower(line), BadgeWord)
    && |Words(line)| > MinWords
  }

  /** What the loop keeps of one line: the line stripped, when that is
      meaningful, and nothing otherwise. */
  function Keep(line: string): (kept: seq<string>)
    ensures |kept| <= 1
    ensures forall l :: l in kept ==> IsMeaningful(l) && Trimmed(l)
  {
    var l := Strip(line);
    if IsMeaningful(l) then [l] else []
  }

  /** The filter tested the way the loop tests it: first the length, the
      link and the badge, then the number of words. */
  lemma KeepCases(raw: string)
    ensures var line := Strip(raw);
      var skipped := |line| < MinLineLength || StartsWith(line, LinkPrefix) || Contains(Lower(line), BadgeWord);
      && (skipped ==> Keep(raw) == [])
      && (!skipped && |Words(line)| > MinWords ==> Keep(raw) == [line])
      && (!skipped && |Words(line)| <= MinWords ==> Keep(raw) == [])
  {
  }

  /** The lines the loop keeps, stripped, in their order. */
  function KeptLines(lines: seq<string>): (kept: seq<string>)
    ensures |kept| <= |lines|
    ensures forall l :: l in kept ==> IsMeaningful(l) && Trimmed(l)
  {
    if lines == [] then []
    else KeptLines(lines[..|lines| - 1]) + Keep(lines[|lines| - 1])
  }

  /** The filter looks at each line on its own: the lines kept from `a + b`
      are those kept from `a` followed by those kept from `b`. */
  lemma {:induction false} KeptLinesAppend(a: seq<string>, b: seq<string>)
    ensures KeptLines(a + b) == KeptLines(a) + KeptLines(b)
    decreases |b|
  {
    if b == [] {
      assert a + b == a;
    } else {
      var b' := b[..|b| - 1];
      var last := b[|b| - 1];
      DropLast(a, b);
      KeptLinesAppend(a, b');
      KeptLinesLast(a + b);
      KeptLinesLast(b);
      AppendAssoc(KeptLines(a), KeptLines(b'), Keep(last));
    }
  }

  lemma KeptLinesLast(lines: seq<string>)
    requires lines != []
    ensures KeptLines(lines) == KeptLines(lines[..|lines| - 1]) + Keep(lines[|lines| - 1])
  {
  }

  /** A single line is kept, stripped, exactly when it is meaningful once
      stripped. */
  lemma KeptLinesSingle(line: string)
    ensures KeptLines([line]) == if IsMeaningful(Strip(line)) then [Strip(line)] else []
  {
    assert [line][..0] == [];
  }

  lemma KeptLinesStep(lines: seq<string>, n: nat)
    requires n < |lines|
    ensures KeptLines(lines[..n + 1]) == KeptLines(lines[..n]) + Keep(lines[n])
  {
    assert lines[..n + 1][..n] == lines[..n];
  }

  /** `meaningful_lines[:5]`. */
  function FirstLines(kept: seq<string>): (first: seq<string>)
    ensures |first| == if |kept| <= MaxLines then |kept| else MaxLines
    ensures first == kept[..|first|]
  {
    if |kept| <= MaxLines then kept else kept[..MaxLines]
  }

  /** `meaningful_text`: the first kept lines joined by single spaces, or,
      when that is empty, the first `FallbackLength` characters of the
      cleaned context. */
  function MeaningfulText(cleanContext: string, kept: seq<string>): string
  {
    var joined := Join(FirstLines(kept), " ");
    if joined == "" then Take(cleanContext, FallbackLength) else joined
  }

  /** Every kept line is at least ten characters long, so joining them is
      empty only when no line was kept: the body falls back to the start of
      the cleaned context when nothing was kept, and otherwise is the join of
      the first five kept lines, opening with the first one. */
  lemma FallbackWhenNothingKept(cleanContext: string, kept: seq<string>)
    requires forall l :: l in kept ==> IsMeaningful(l)
    ensures kept == [] ==> MeaningfulText(cleanContext, kept) == Take(cleanContext, FallbackLength)
    ensures kept != [] ==> MeaningfulText(cleanContext, kept) == Join(FirstLines(kept), " ")
    ensures kept != [] ==> StartsWith(MeaningfulText(cleanContext, kept), kept[0])
  {
    if kept != [] {
      assert kept[0] in kept;
      JoinStartsWithFirst(FirstLines(kept), " ");
    }
  }

  lemma JoinStartsWithFirst(parts: seq<string>, sep: string)
    requires parts != []
    ensures StartsWith(Join(parts, sep), parts[0])
  {
    if |parts| > 1 {
      var j := Join(parts, sep);
      assert j == parts[0] + (sep + Join(parts[1..], sep));
      assert j[..|parts[0]|] == parts[0];
    }
  }

  /** The keyword groups, in the order the question is tested against them;
      `General` is the answer when none matches. */
  datatype Intent = Definition | HowTo | Usage | Components | Rag | General

  /** The position of an intent in the test order. */
  function Rank(i: Intent): nat
  {
    match i
    case Definition => 0
    case HowTo => 1
    case Usage => 2
    case Components => 3
    case Rag => 4
    case General => 5
  }

  /** The keywords of each group, as they appear in the source. */
  function Keywords(i: Intent): seq<string>
  {
    match i
    case Definition => ["nedir", "ne demek"]
    case HowTo => ["nasıl", "yapılır", "kurulur"]
    case Usage => ["ne işe yarar", "kullanım"]
    case Components => ["bileşen", "component"]
    case Rag => ["rag"]
    case General => []
  }

  /** Some keyword of group `i` occurs in `q`. */
  predicate Mentions(q: string, i: Intent) {
    exists k :: k in Keywords(i) && Contains(q, k)
  }

  /** The if/elif chain on `question.lower()`. The group chosen is the first,
      in test order, whose keywords the lowered question contains: it is
      mentioned (unless it is `General`), and no earlier group is. */
  function Classify(question: string): (i: Intent)
    ensures i != General ==> Mentions(Lower(question), i)
    ensures forall j: Intent :: Rank(j) < Rank(i) ==> !Mentions(Lower(question), j)
  {
    var q := Lower(question);
    MentionsKeywords(q);
    if Contains(q, "nedir") || Contains(q, "ne demek") then Definition
    else if Contains(q, "nasıl") || Contains(q, "yapılır") || Contains(q, "kurulur") then HowTo
    else if Contains(q, "ne işe yarar") || Contains(q, "kullanım") then Usage
    else if Contains(q, "bileşen") || Contains(q, "component") then Components
    else if Contains(q, "rag") then Rag
    else General
  }

  /** `Mentions` spelled out group by group, as the chain tests it. */
  lemma MentionsKeywords(q: string)
    ensures Mentions(q, Definition) <==> Contains(q, "nedir") || Contains(q, "ne demek")
    ensures Mentions(q, HowTo) <==> Contains(q, "nasıl") || Contains(q, "yapılır") || Contains(q, "kurulur")
    ensures Mentions(q, Usage) <==> Contains(q, "ne işe yarar") || Contains(q, "kullanım")
    ensures Mentions(q, Components) <==> Contains(q, "bileşen") || Contains(q, "component")
    ensures Mentions(q, Rag) <==> Contains(q, "rag")
    ensures !Mentions(q, General)
  {
    assert Keywords(Definition)[0] == "nedir" && Keywords(Definition)[1] == "ne demek";
    assert Keywords(HowTo)[0] == "nasıl" && Keywords(HowTo)[1] == "yapılır" && Keywords(HowTo)[2] == "kurulur";
    assert Keywords(Usage)[0] == "ne işe yarar" && Keywords(Usage)[1] == "kullanım";
    assert Keywords(Components)[0] == "bileşen" && Keywords(Components)[1] == "component";
    assert Keywords(Rag)[0] == "rag";
  }

  /** "rag" is matched as a substring, so a word such as "storage" selects the
      RAG group. */
  lemma StorageMentionsRag(q: string)
    requires Contains(q, "storage")
    ensures Mentions(q, Rag)
  {
    var i :| 0 <= i <= |q| - 7 && OccursAt(q, "storage", i);
    assert "storage"[3..6] == "rag";
    OccursWithin(q, "storage", i, 3, "rag");
    assert "rag" in Keywords(Rag);
  }

  /** A question gets the definition template exactly when it mentions a
      definition keyword, whatever else it mentions: "rag nedir" is a
      definition question, not a RAG one. */
  lemma DefinitionWins(question: string)
    ensures Classify(question) == Definition <==> Mentions(Lower(question), Definition)
  {
  }

  /** Lower-casing maps "I" to "i", never to the dotless "ı", so a question
      without "ı" of its own, such as "NASIL", never mentions "nasıl". */
  lemma UpperNasilDoesNotMatch(question: string)
    requires '\U{131}' !in question
    ensures !Contains(Lower(question), "nasıl")
  {
    var q := Lower(question);
    LowerDotlessI(question);
    assert "nasıl"[3] == '\U{131}';
    forall i | 0 <= i <= |q| - 5 ensures !OccursAt(q, "nasıl", i) {
      assert q[i..i + 5][3] == q[i + 3];
      assert q[i + 3] in q;
    }
  }

  /** How much of the body each template keeps. */
  function Limit(i: Intent): nat
  {
    match i
    case Definition => 400
    case HowTo => 450
    case Usage => 400
    case Components => 380
    case Rag => 350
    case General => 500
  }

  /** The fixed note each template closes with. */
  function Note(i: Intent): string
  {
    match i
    case Definition => "Devamı için detaylı sonuçlara bakın"
    case HowTo => "Adımlar için detaylı sonuçları inceleyin"
    case Usage => "Kullanım detayları için yukarıdaki sonuçlara bakın"
    case Components => "Bileşen listesi için detaylı sonuçları görün"
    case Rag => "RAG mimarisi detayları için sonuçlara bakın"
    case General => "Detaylı bilgi için yukarıdaki sonuçları okuyun"
  }

  /** What follows the cut body: an ellipsis and the note in brackets. */
  function Tail(i: Intent): string
  {
    "... [" + Note(i) + "]"
  }

  /** `f"{meaningful_text[:N]}... [note]"` for the template of the question. */
  function Answer(body: string, question: string): string
  {
    var i := Classify(question);
    Take(body, Limit(i)) + Tail(i)
  }

  /** The answer is the start of the body, at most as long as the chosen
      template allows, followed by that template's tail; so it is never
      empty and never longer than the limit plus the tail. */
  lemma AnswerShape(body: string, question: string)
    ensures var i := Classify(question);
      var a := Answer(body, question);
      && 0 < |Tail(i)| <= |a| <= Limit(i) + |Tail(i)|
      && StartsWith(body, a[..|a| - |Tail(i)|])
      && a[|a| - |Tail(i)|..] == Tail(i)
  {
    var i := Classify(question);
    TailNonEmpty(i);
    TakeThenTail(body, Limit(i), Tail(i));
  }

  lemma TailNonEmpty(i: Intent)
    ensures |Tail(i)| > 0
  {
    assert Tail(i) == "... [" + Note(i) + "]";
  }

  lemma TakeThenTail(body: string, n: nat, tail: string)
    ensures var a := Take(body, n) + tail;
      && |tail| <= |a| <= n + |tail|
      && StartsWith(body, a[..|a| - |tail|])
      && a[|a| - |tail|..] == tail
  {
    var t := Take(body, n);
    var a := t + tail;
    assert a[..|a| - |tail|] == t;
    assert a[|a| - |tail|..] == tail;
  }

  /** `generate_response(context, question)` as a value: clean, split into
      lines, keep the meaningful ones, build the body, apply the template. */
  function Response(context: string, question: string): string
  {
    var cleanContext := Clean(context);
    Answer(MeaningfulText(cleanContext, KeptLines(Split(cleanContext, '\n'))), question)
  }

  /** When the context has enough tags to be cleaned, the cleaned context is
      one line: at most that line is kept, and the body is the whole cleaned
      context when it is meaningful, its first 500 characters otherwise. */
  lemma CleanedContextIsOneLine(context: string)
    requires |FindTags(context)| >= MinTags
    ensures var c := Clean(context);
      && Split(c, '\n') == [c]
      && |KeptLines(Split(c, '\n'))| <= 1
      && MeaningfulText(c, KeptLines(Split(c, '\n'))) ==
           if IsMeaningful(c) then c else Take(c, FallbackLength)
  {
    CleanedHasNoNewline(context);
    OneLine(Clean(context));
  }

  /** A trimmed text without line breaks is one line, kept whole when it is
      meaningful; otherwise the body falls back to its start. */
  lemma OneLine(c: string)
    requires '\n' !in c && Trimmed(c)
    ensures Split(c, '\n') == [c]
    ensures |KeptLines(Split(c, '\n'))| <= 1
    ensures MeaningfulText(c, KeptLines(Split(c, '\n'))) ==
      if IsMeaningful(c) then c else Take(c, FallbackLength)
  {
    SplitWithoutSeparator(c, '\n');
    KeptLinesSingle(c);
    StripTrimmed(c);
    if IsMeaningful(c) {
      assert KeptLines([c]) == [c];
      assert FirstLines([c]) == [c];
      assert Join([c], " ") == c;
    } else {
      assert KeptLines([c]) == [];
    }
  }

  /** `generate_response`, with the line filter as the loop the source runs. */
  method GenerateResponse(context: string, question: string) returns (answer: string)
    ensures answer == Response(context, question)
  {
    var cleanContext := Clean(context);
    var lines := Split(cleanContext, '\n');
    var meaningful: seq<string> := [];
    for n := 0 to |lines|
      invariant meaningful == KeptLines(lines[..n])
    {
      var line := Strip(lines[n]);
      KeptLinesStep(lines, n);
      KeepCases(lines[n]);
      if |line| < MinLineLength || StartsWith(line, LinkPrefix) || Contains(Lower(line), BadgeWord) {
        continue;
      }
      if |Words(line)| > MinWords {
        meaningful := meaningful + [line];
      }
    }
    assert lines[..|lines|] == lines;
    var text := Join(FirstLines(meaningful), " ");
    if text == "" {
      text := Take(cleanContext, FallbackLength);
    }
    assert text == MeaningfulText(cleanContext, meaningful);
    var intent := Classify(question);
    answer := Take(text, Limit(intent)) + Tail(intent);
    assert answer == Answer(text, question);
  }
}
