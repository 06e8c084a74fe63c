/** Word alignments, inter-word gaps and the selection of "good gaps"
    (the split points of the segmentation) as computed at the start of gaps.py. */
module Alignment {

  /** One aligned word as read from the alignment JSON. Times are seconds.
      `duration` is the stored field the filter reads; it is not recomputed. */
  datatype Word = Word(start: real, end: real, duration: real,
                       word: string, orig: string, caseTag: string)

  /** The case tag of a low-confidence word. */
  const Mismatch: string := "mismatch"

  /** The end time of the synthetic zero word prepended before the first word. */
  const NullWordEnd: real := 0.0

  /** A good gap: the index of the word that follows the silence, and the silence length. */
  datatype GoodGap = GoodGap(index: nat, gap: real)

  /** `second.start - first.end` over the pairs of `zip([prev] + ctms, ctms)`,
      where only the end time of `prev` matters. */
  function GapsFrom(prevEnd: real, ctms: seq<Word>): (gaps: seq<real>)
    ensures |gaps| == |ctms|
    ensures |ctms| > 0 ==> gaps[0] == ctms[0].start - prevEnd
    ensures forall i :: 0 < i < |ctms| ==> gaps[i] == ctms[i].start - ctms[i - 1].end
    decreases |ctms|
  {
    if ctms == [] then []
    else [ctms[0].start - prevEnd] + GapsFrom(ctms[0].end, ctms[1..])
  }

  /** One gap per word: the silence before it, measured from the zero word for index 0. */
  function Gaps(ctms: seq<Word>): (gaps: seq<real>)
    ensures |gaps| == |ctms|
    ensures |ctms| > 0 ==> gaps[0] == ctms[0].start
    ensures forall i :: 0 < i < |ctms| ==> gaps[i] == ctms[i].start - ctms[i - 1].end
  {
    GapsFrom(NullWordEnd, ctms)
  }

  /** The three-part test for a split point: a long silence before a word that is
      itself long and not a mismatch. */
  predicate IsGood(w: Word, gap: real, minGap: real)
  {
    gap > minGap && w.duration > minGap && w.caseTag != Mismatch
  }

  /** The `enumerate(gaps)` filter, from position `i` on. */
  function SelectGoodGaps(ctms: seq<Word>, gaps: seq<real>, minGap: real, i: nat): (gg: seq<GoodGap>)
    requires |gaps| == |ctms| && i <= |ctms|
    ensures |gg| <= |ctms| - i
    ensures forall k :: 0 <= k < |gg| ==>
              i <= gg[k].index < |ctms| && gg[k].gap == gaps[gg[k].index]
              && IsGood(ctms[gg[k].index], gaps[gg[k].index], minGap)
    ensures forall k, l :: 0 <= k < l < |gg| ==> gg[k].index < gg[l].index
    decreases |ctms| - i
  {
    if i == |ctms| then []
    else if IsGood(ctms[i], gaps[i], minGap) then [GoodGap(i, gaps[i])] + SelectGoodGaps(ctms, gaps, minGap, i + 1)
    else SelectGoodGaps(ctms, gaps, minGap, i + 1)
  }

  /** The good gaps of a recording, in word order. */
  function GoodGaps(ctms: seq<Word>, minGap: real): (gg: seq<GoodGap>)
    ensures |gg| <= |ctms|
    ensures forall k :: 0 <= k < |gg| ==>
              gg[k].index < |ctms| && gg[k].gap == Gaps(ctms)[gg[k].index]
              && IsGood(ctms[gg[k].index], Gaps(ctms)[gg[k].index], minGap)
    ensures forall k, l :: 0 <= k < l < |gg| ==> gg[k].index < gg[l].index
  {
    SelectGoodGaps(ctms, Gaps(ctms), minGap, 0)
  }

  /** Completeness of the filter: every index from `i` on that passes the test is selected. */
  lemma {:induction false} SelectGoodGapsComplete(ctms: seq<Word>, gaps: seq<real>, minGap: real, i: nat, j: nat)
    requires |gaps| == |ctms| && i <= j < |ctms|
    requires IsGood(ctms[j], gaps[j], minGap)
    ensures exists k :: 0 <= k < |SelectGoodGaps(ctms, gaps, minGap, i)| &&
              SelectGoodGaps(ctms, gaps, minGap, i)[k] == GoodGap(j, gaps[j])
    decreases j - i
  {
    var gg := SelectGoodGaps(ctms, gaps, minGap, i);
    if i == j {
      assert gg[0] == GoodGap(j, gaps[j]);
    } else {
      SelectGoodGapsComplete(ctms, gaps, minGap, i + 1, j);
      var rest := SelectGoodGaps(ctms, gaps, minGap, i + 1);
      var k :| 0 <= k < |rest| && rest[k] == GoodGap(j, gaps[j]);
      if IsGood(ctms[i], gaps[i], minGap) {
        assert gg[k + 1] == rest[k];
      } else {
        assert gg[k] == rest[k];
      }
    }
  }

  /** The good gaps are exactly the pairs `(j, gaps[j])` whose word passes the test. */
  lemma GoodGapsExact(ctms: seq<Word>, minGap: real, j: nat)
    requires j < |ctms|
    ensures IsGood(ctms[j], Gaps(ctms)[j], minGap) <==>
            exists k :: 0 <= k < |GoodGaps(ctms, minGap)| && GoodGaps(ctms, minGap)[k] == GoodGap(j, Gaps(ctms)[j])
  {
    if IsGood(ctms[j], Gaps(ctms)[j], minGap) {
      SelectGoodGapsComplete(ctms, Gaps(ctms), minGap, 0, j);
      assert GoodGaps(ctms, minGap) == SelectGoodGaps(ctms, Gaps(ctms), minGap, 0);
    }
  }
}
