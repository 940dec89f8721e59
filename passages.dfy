/** The two pure steps of `user_input` around the retrieval: the passages
    found for a question are joined into one context for the responder, and
    each passage is shown in the detailed results only when its cleaned text
    is long enough. */
module Passages {
  import opened Text
  import opened Cleaner

  /** A cleaned passage this long or shorter is not shown. */
  const MinDetailLength: nat := 50

  /** `"\n".join(doc.page_content for doc in docs)`. When no passage holds a
      line break, splitting the context on line breaks gives the passages
      back. */
  function AssembleContext(passages: seq<string>): (context: string)
    ensures passages != [] && (forall p :: p in passages ==> '\n' !in p) ==>
      Split(context, '\n') == passages
  {
    SplitAssembled(passages);
    Join(passages, "\n")
  }

  lemma SplitAssembled(passages: seq<string>)
    ensures passages != [] && (forall p :: p in passages ==> '\n' !in p) ==>
      Split(Join(passages, "\n"), '\n') == passages
  {
    if passages != [] && (forall p :: p in passages ==> '\n' !in p) {
      SplitJoin(passages, '\n');
    }
  }

  /** One expander of the detailed results: its 1-based number and the
      cleaned passage it shows. */
  datatype Detail = Detail(number: nat, text: string)

  /** The cleaned text of every passage, in order. */
  function CleanAll(passages: seq<string>): (texts: seq<string>)
    ensures |texts| == |passages|
    ensures forall k :: 0 <= k < |passages| ==> texts[k] == Clean(passages[k])
  {
    seq(|passages|, k requires 0 <= k < |passages| => Clean(passages[k]))
  }

  /** The expanders for already cleaned passages: for each text in order,
      numbered from 1, the text itself when it is longer than
      `MinDetailLength`. Exactly those texts appear, with their own numbers,
      in increasing order. */
  function Select(texts: seq<string>): (shown: seq<Detail>)
    ensures forall d :: d in shown ==>
      1 <= d.number <= |texts| && d.text == texts[d.number - 1] && |d.text| > MinDetailLength
    ensures forall k :: 0 <= k < |texts| ==>
      (|texts[k]| > MinDetailLength <==> Detail(k + 1, texts[k]) in shown)
    ensures forall i, j :: 0 <= i < j < |shown| ==> shown[i].number < shown[j].number
  {
    if texts == [] then []
    else
      var n := |texts|;
      var prefix := texts[..n - 1];
      var before := Select(prefix);
      var last := if |texts[n - 1]| > MinDetailLength then [Detail(n, texts[n - 1])] else [];
      SelectStep(texts, prefix, before, last);
      before + last
  }

  lemma SelectStep(texts: seq<string>, prefix: seq<string>, before: seq<Detail>, last: seq<Detail>)
    requires texts != [] && prefix == texts[..|texts| - 1]
    requires forall d :: d in before ==>
      1 <= d.number <= |prefix| && d.text == prefix[d.number - 1] && |d.text| > MinDetailLength
    requires forall k :: 0 <= k < |prefix| ==>
      (|prefix[k]| > MinDetailLength <==> Detail(k + 1, prefix[k]) in before)
    requires forall i, j :: 0 <= i < j < |before| ==> before[i].number < before[j].number
    requires last == if |texts[|texts| - 1]| > MinDetailLength then [Detail(|texts|, texts[|texts| - 1])] else []
    ensures forall d :: d in before + last ==>
      1 <= d.number <= |texts| && d.text == texts[d.number - 1] && |d.text| > MinDetailLength
    ensures forall k :: 0 <= k < |texts| ==>
      (|texts[k]| > MinDetailLength <==> Detail(k + 1, texts[k]) in before + last)
    ensures forall i, j :: 0 <= i < j < |before + last| ==>
      (before + last)[i].number < (before + last)[j].number
  {
    var n := |texts|;
    var shown := before + last;
    forall d | d in before
      ensures 1 <= d.number <= n && d.text == texts[d.number - 1] && |d.text| > MinDetailLength
    {
      assert prefix[d.number - 1] == texts[d.number - 1];
    }
    forall k | 0 <= k < n
      ensures |texts[k]| > MinDetailLength <==> Detail(k + 1, texts[k]) in shown
    {
      if k < n - 1 {
        assert prefix[k] == texts[k];
        assert Detail(k + 1, texts[k]) !in last;
      } else {
        assert Detail(k + 1, texts[k]) !in before;
      }
    }
    forall i, j | 0 <= i < j < |shown| ensures shown[i].number < shown[j].number {
      if j >= |before| {
        assert shown[j] == last[0];
        if i < |before| {
          assert shown[i] in before;
        }
      }
    }
  }

  /** The detailed results of `user_input`: for each passage in order,
      numbered from 1, its cleaned text when that is longer than
      `MinDetailLength`; exactly those passages appear, in increasing order. */
  function Details(passages: seq<string>): (shown: seq<Detail>)
    ensures forall d :: d in shown ==>
      && 1 <= d.number <= |passages|
      && d.text == Clean(passages[d.number - 1])
      && |d.text| > MinDetailLength
    ensures forall k :: 0 <= k < |passages| ==>
      (|Clean(passages[k])| > MinDetailLength <==> Detail(k + 1, Clean(passages[k])) in shown)
    ensures forall i, j :: 0 <= i < j < |shown| ==> shown[i].number < shown[j].number
  {
    Select(CleanAll(passages))
  }
}
