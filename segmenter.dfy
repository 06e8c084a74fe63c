/** The segmentation loop of gaps.py:72-121: each pair of consecutive good gaps
    delimits a candidate clip; a candidate of at least five words is written, with
    its transcript, and its duration added to the total. */
module Segmenter {
  import opened Alignment
  import opened Text
  import SpeakerTurns

  /** The fewest words a written clip has. */
  const MinWords: nat := 5

  /** What is written for one clip: the word range `ctms[firstWord:endWord]`, its time
      range, its transcript, its word count and (plain mode) its mismatch count. */
  datatype Clip = Clip(firstWord: nat, endWord: nat, startSec: real, endSec: real,
                       text: string, wordCount: nat, mismatchCount: nat)

  /** `[word["word"] for word in clip]`. */
  function RecognizedWords(clip: seq<Word>): (ws: seq<string>)
    ensures |ws| == |clip|
    decreases |clip|
  {
    if clip == [] then [] else [clip[0].word] + RecognizedWords(clip[1..])
  }

  /** Word `i` of the list is the recognised text of word `i` of the clip. */
  lemma {:induction false} RecognizedWordsAt(clip: seq<Word>, i: nat)
    requires i < |clip|
    ensures RecognizedWords(clip)[i] == clip[i].word
    decreases i
  {
    if i > 0 {
      RecognizedWordsAt(clip[1..], i - 1);
    }
  }

  /** `[word["orig"] for word in clip]`. */
  function OriginalWords(clip: seq<Word>): (ws: seq<string>)
    ensures |ws| == |clip|
    decreases |clip|
  {
    if clip == [] then [] else [clip[0].orig] + OriginalWords(clip[1..])
  }

  /** Word `i` of the list is the original text of word `i` of the clip. */
  lemma {:induction false} OriginalWordsAt(clip: seq<Word>, i: nat)
    requires i < |clip|
    ensures OriginalWords(clip)[i] == clip[i].orig
    decreases i
  {
    if i > 0 {
      OriginalWordsAt(clip[1..], i - 1);
    }
  }

  /** gaps.py:103, the plain transcript: recognised words joined by spaces, stripped. */
  function PlainText(clip: seq<Word>): (text: string)
  {
    Strip(Join(RecognizedWords(clip)))
  }

  /** The plain transcript splits back into the recognised words, when each of them is
      a non-empty run of non-whitespace characters. */
  lemma PlainTextWords(clip: seq<Word>)
    requires |clip| > 0
    requires forall i :: 0 <= i < |clip| ==> IsToken(clip[i].word)
    ensures Split(PlainText(clip)) == RecognizedWords(clip)
  {
    var ws := RecognizedWords(clip);
    forall k | 0 <= k < |ws| ensures IsToken(ws[k]) {
      RecognizedWordsAt(clip, k);
    }
    SplitStripJoin(ws);
  }

  /** gaps.py:104, `sum([word['case'] == 'mismatch' for word in clip])`. */
  function MismatchCount(clip: seq<Word>): (n: nat)
    ensures n <= |clip|
    ensures n == 0 <==> forall i :: 0 <= i < |clip| ==> clip[i].caseTag != Mismatch
    ensures n == |clip| <==> forall i :: 0 <= i < |clip| ==> clip[i].caseTag == Mismatch
    decreases |clip|
  {
    if clip == [] then 0
    else (if clip[0].caseTag == Mismatch then 1 else 0) + MismatchCount(clip[1..])
  }

  /** gaps.py:91-100, the speaker-turn transcript: original words joined by spaces,
      stripped, then normalised. */
  function SpeakerTurnText(clip: seq<Word>): (text: string)
  {
    SpeakerTurns.Normalize(Strip(Join(OriginalWords(clip))))
  }

  /** gaps.py:91-100 as the source runs it: `words` reassigned by each step in turn. */
  method BuildSpeakerTurnText(clip: seq<Word>) returns (words: string)
    ensures words == SpeakerTurnText(clip)
    ensures SpeakerTurns.TurnShaped(words)
  {
    words := Strip(Join(OriginalWords(clip)));
    ghost var joined := words;
    words := SpeakerTurns.DashToSpace(words);
    words := SpeakerTurns.FoldPunct(words);
    words := SpeakerTurns.RemoveFirstDisallowed(words, SpeakerTurns.RegexCount);
    words := SpeakerTurns.TrimMarkers(words);
    words := SpeakerTurns.SpaceMarkers(words);
    words := SpeakerTurns.DropTrailingMarker(words);
    words := SpeakerTurns.CollapseWs(words);
    words := SpeakerTurns.Lower(words);
    SpeakerTurns.NormalizeComposed(joined);
    SpeakerTurns.NormalizeShape(joined);
  }

  /** The transcript of a clip in the selected mode. */
  function ClipText(clip: seq<Word>, speakerTurns: bool): (text: string)
  {
    if speakerTurns then SpeakerTurnText(clip) else PlainText(clip)
  }

  /** gaps.py:89-104: the transcript and the mismatch count (zero in speaker-turn mode). */
  method Transcribe(clip: seq<Word>, speakerTurns: bool) returns (words: string, count: nat)
    ensures words == ClipText(clip, speakerTurns)
    ensures count == if speakerTurns then 0 else MismatchCount(clip)
    ensures count <= |clip|
  {
    count := 0;
    if speakerTurns {
      words := BuildSpeakerTurnText(clip);
    } else {
      words := PlainText(clip);
      count := MismatchCount(clip);
    }
  }

  /** A good-gap list as the filter produces it: indices inside `ctms`, strictly increasing. */
  predicate ValidGoodGaps(ctms: seq<Word>, gg: seq<GoodGap>)
  {
    && (forall k :: 0 <= k < |gg| ==> gg[k].index < |ctms|)
    && (forall k, l :: 0 <= k < l < |gg| ==> gg[k].index < gg[l].index)
  }

  /** Candidates are the consecutive pairs of good gaps: the last one starts none. */
  function NumCandidates(gg: seq<GoodGap>): (n: nat)
  {
    if |gg| == 0 then 0 else |gg| - 1
  }

  /** The record candidate `k` would give: the words from good gap `k` up to, not
      including, good gap `k + 1`. */
  function Candidate(ctms: seq<Word>, gg: seq<GoodGap>, speakerTurns: bool, k: nat): (c: Clip)
    requires ValidGoodGaps(ctms, gg) && k < NumCandidates(gg)
    ensures c.firstWord == gg[k].index && c.endWord == gg[k + 1].index
  {
    var s, e := gg[k].index, gg[k + 1].index;
    var clip := ctms[s..e];
    Clip(s, e, clip[0].start, clip[|clip| - 1].end, ClipText(clip, speakerTurns),
         |clip|, if speakerTurns then 0 else MismatchCount(clip))
  }

  /** Whether candidate `k` has enough words to be written. */
  predicate Kept(gg: seq<GoodGap>, k: nat)
    requires k < NumCandidates(gg)
  {
    gg[k + 1].index - gg[k].index >= MinWords
  }

  /** The records written for the first `n` candidates, in order. */
  function Written(ctms: seq<Word>, gg: seq<GoodGap>, speakerTurns: bool, n: nat): (clips: seq<Clip>)
    requires ValidGoodGaps(ctms, gg) && n <= NumCandidates(gg)
  {
    if n == 0 then []
    else Written(ctms, gg, speakerTurns, n - 1)
         + (if Kept(gg, n - 1) then [Candidate(ctms, gg, speakerTurns, n - 1)] else [])
  }

  /** `total_written`: the sum of `end_sec - start_sec` over the written clips. */
  function TotalDuration(clips: seq<Clip>): (secs: real)
  {
    if clips == [] then 0.0
    else TotalDuration(clips[..|clips| - 1]) + (clips[|clips| - 1].endSec - clips[|clips| - 1].startSec)
  }

  /** All the records of a recording, from its alignments. */
  function Segmentation(ctms: seq<Word>, minGap: real, speakerTurns: bool): (clips: seq<Clip>)
  {
    var gg := GoodGaps(ctms, minGap);
    Written(ctms, gg, speakerTurns, NumCandidates(gg))
  }

  /** Appending one record adds its duration to the total. */
  lemma TotalDurationAppend(clips: seq<Clip>, c: Clip)
    ensures TotalDuration(clips + [c]) == TotalDuration(clips) + (c.endSec - c.startSec)
  {
    assert (clips + [c])[..|clips|] == clips;
  }

  /** One more candidate appends its record when it is kept, and nothing otherwise. */
  lemma WrittenNext(ctms: seq<Word>, gg: seq<GoodGap>, speakerTurns: bool, n: nat)
    requires ValidGoodGaps(ctms, gg) && n < NumCandidates(gg)
    ensures Written(ctms, gg, speakerTurns, n + 1)
            == Written(ctms, gg, speakerTurns, n)
               + (if gg[n + 1].index - gg[n].index >= MinWords then [Candidate(ctms, gg, speakerTurns, n)] else [])
  {
  }

  /** What a written record looks like: at least five words of the recording, timed by
      its first and last words, with no more mismatches than words. */
  predicate WellFormedRecord(ctms: seq<Word>, c: Clip)
  {
    && c.firstWord < c.endWord <= |ctms|
    && c.wordCount == c.endWord - c.firstWord
    && c.startSec == ctms[c.firstWord].start && c.endSec == ctms[c.endWord - 1].end
    && c.mismatchCount <= c.wordCount
  }

  /** Every candidate is a non-empty clip between its two good gaps. */
  lemma CandidateShape(ctms: seq<Word>, gg: seq<GoodGap>, speakerTurns: bool, k: nat)
    requires ValidGoodGaps(ctms, gg) && k < NumCandidates(gg)
    ensures WellFormedRecord(ctms, Candidate(ctms, gg, speakerTurns, k))
  {
    var s, e := gg[k].index, gg[k + 1].index;
    var clip := ctms[s..e];
    assert clip[0] == ctms[s] && clip[|clip| - 1] == ctms[e - 1];
  }

  /** The candidates among the first `n` that have enough words to be written, in order. */
  function KeptUpTo(gg: seq<GoodGap>, n: nat): (ks: seq<nat>)
    requires n <= NumCandidates(gg)
    ensures |ks| <= n
  {
    if n == 0 then []
    else KeptUpTo(gg, n - 1) + (if Kept(gg, n - 1) then [n - 1] else [])
  }

  /** The kept candidates are kept, below `n`, and listed in increasing order. */
  lemma {:induction false} KeptUpToSorted(gg: seq<GoodGap>, n: nat)
    requires n <= NumCandidates(gg)
    ensures forall j :: 0 <= j < |KeptUpTo(gg, n)| ==> KeptUpTo(gg, n)[j] < n && Kept(gg, KeptUpTo(gg, n)[j])
    ensures forall j, j' :: 0 <= j < j' < |KeptUpTo(gg, n)| ==> KeptUpTo(gg, n)[j] < KeptUpTo(gg, n)[j']
    decreases n
  {
    if n > 0 {
      var prev, ks := KeptUpTo(gg, n - 1), KeptUpTo(gg, n);
      KeptUpToSorted(gg, n - 1);
      assert ks == prev + (if Kept(gg, n - 1) then [n - 1] else []);
      forall j | 0 <= j < |ks| ensures ks[j] < n && Kept(gg, ks[j]) {
        if j < |prev| {
          assert ks[j] == prev[j];
        } else {
          assert ks[j] == n - 1;
        }
      }
      forall j, j' | 0 <= j < j' < |ks| ensures ks[j] < ks[j'] {
        assert ks[j] == prev[j];
        if j' < |prev| {
          assert ks[j'] == prev[j'];
        } else {
          assert ks[j'] == n - 1;
        }
      }
    }
  }

  /** A candidate below `n` is listed exactly when it has enough words. */
  lemma {:induction false} KeptUpToExactly(gg: seq<GoodGap>, n: nat, k: nat)
    requires k < n <= NumCandidates(gg)
    ensures k in KeptUpTo(gg, n) <==> Kept(gg, k)
    decreases n
  {
    var prev, ks := KeptUpTo(gg, n - 1), KeptUpTo(gg, n);
    KeptUpToSorted(gg, n - 1);
    if k < n - 1 {
      KeptUpToExactly(gg, n - 1, k);
      assert k in ks <==> k in prev;
    }
  }

  /** One record is written per kept candidate. */
  lemma {:induction false} WrittenLength(ctms: seq<Word>, gg: seq<GoodGap>, speakerTurns: bool, n: nat)
    requires ValidGoodGaps(ctms, gg) && n <= NumCandidates(gg)
    ensures |Written(ctms, gg, speakerTurns, n)| == |KeptUpTo(gg, n)|
    decreases n
  {
    if n > 0 {
      WrittenLength(ctms, gg, speakerTurns, n - 1);
    }
  }

  /** The `j`-th written record is the record of the `j`-th kept candidate. */
  lemma {:induction false} WrittenAt(ctms: seq<Word>, gg: seq<GoodGap>, speakerTurns: bool, n: nat, j: nat)
    requires ValidGoodGaps(ctms, gg) && n <= NumCandidates(gg) && j < |KeptUpTo(gg, n)|
    ensures |Written(ctms, gg, speakerTurns, n)| == |KeptUpTo(gg, n)|
    ensures KeptUpTo(gg, n)[j] < NumCandidates(gg)
    ensures Written(ctms, gg, speakerTurns, n)[j] == Candidate(ctms, gg, speakerTurns, KeptUpTo(gg, n)[j])
    decreases n
  {
    var prev, ks := KeptUpTo(gg, n - 1), KeptUpTo(gg, n);
    var prevW, w := Written(ctms, gg, speakerTurns, n - 1), Written(ctms, gg, speakerTurns, n);
    WrittenLength(ctms, gg, speakerTurns, n - 1);
    WrittenLength(ctms, gg, speakerTurns, n);
    if j < |prev| {
      WrittenAt(ctms, gg, speakerTurns, n - 1, j);
      assert ks[j] == prev[j];
      assert w[j] == prevW[j];
    } else {
      assert ks[j] == n - 1;
      assert w[j] == Candidate(ctms, gg, speakerTurns, n - 1);
    }
  }

  /** Every written record is a well-formed clip of at least five words. */
  lemma WrittenWellFormed(ctms: seq<Word>, gg: seq<GoodGap>, speakerTurns: bool, n: nat, j: nat)
    requires ValidGoodGaps(ctms, gg) && n <= NumCandidates(gg)
    requires j < |Written(ctms, gg, speakerTurns, n)|
    ensures WellFormedRecord(ctms, Written(ctms, gg, speakerTurns, n)[j])
    ensures Written(ctms, gg, speakerTurns, n)[j].wordCount >= MinWords
  {
    var ks := KeptUpTo(gg, n);
    WrittenLength(ctms, gg, speakerTurns, n);
    KeptUpToSorted(gg, n);
    WrittenAt(ctms, gg, speakerTurns, n, j);
    CandidateShape(ctms, gg, speakerTurns, ks[j]);
  }

  /** The `j`-th written record spans the words between the good gaps of the `j`-th kept candidate. */
  lemma WrittenSpan(ctms: seq<Word>, gg: seq<GoodGap>, speakerTurns: bool, n: nat, j: nat)
    requires ValidGoodGaps(ctms, gg) && n <= NumCandidates(gg) && j < |KeptUpTo(gg, n)|
    ensures |Written(ctms, gg, speakerTurns, n)| == |KeptUpTo(gg, n)|
    ensures KeptUpTo(gg, n)[j] < NumCandidates(gg)
    ensures Written(ctms, gg, speakerTurns, n)[j].firstWord == gg[KeptUpTo(gg, n)[j]].index
    ensures Written(ctms, gg, speakerTurns, n)[j].endWord == gg[KeptUpTo(gg, n)[j] + 1].index
  {
    WrittenAt(ctms, gg, speakerTurns, n, j);
  }

  /** Written records follow the words in order and do not overlap. */
  lemma WrittenOrdered(ctms: seq<Word>, gg: seq<GoodGap>, speakerTurns: bool, n: nat, j: nat, j': nat)
    requires ValidGoodGaps(ctms, gg) && n <= NumCandidates(gg)
    requires j < j' < |Written(ctms, gg, speakerTurns, n)|
    ensures Written(ctms, gg, speakerTurns, n)[j].endWord <= Written(ctms, gg, speakerTurns, n)[j'].firstWord
  {
    var ks := KeptUpTo(gg, n);
    WrittenLength(ctms, gg, speakerTurns, n);
    KeptUpToSorted(gg, n);
    WrittenSpan(ctms, gg, speakerTurns, n, j);
    WrittenSpan(ctms, gg, speakerTurns, n, j');
    assert ks[j] + 1 <= ks[j'];
  }

  /** At most one record per candidate. */
  lemma WrittenAtMost(ctms: seq<Word>, gg: seq<GoodGap>, speakerTurns: bool, n: nat)
    requires ValidGoodGaps(ctms, gg) && n <= NumCandidates(gg)
    ensures |Written(ctms, gg, speakerTurns, n)| <= n
  {
    WrittenLength(ctms, gg, speakerTurns, n);
  }

  /** A candidate is written exactly when it has at least five words. */
  lemma WrittenExactly(ctms: seq<Word>, gg: seq<GoodGap>, speakerTurns: bool, n: nat, k: nat)
    requires ValidGoodGaps(ctms, gg) && k < n <= NumCandidates(gg)
    ensures Kept(gg, k) <==> Candidate(ctms, gg, speakerTurns, k) in Written(ctms, gg, speakerTurns, n)
  {
    var w, ks := Written(ctms, gg, speakerTurns, n), KeptUpTo(gg, n);
    var c := Candidate(ctms, gg, speakerTurns, k);
    WrittenLength(ctms, gg, speakerTurns, n);
    KeptUpToExactly(gg, n, k);
    if Kept(gg, k) {
      var j :| 0 <= j < |ks| && ks[j] == k;
      WrittenAt(ctms, gg, speakerTurns, n, j);
      assert w[j] == c;
    }
    if c in w {
      var j :| 0 <= j < |w| && w[j] == c;
      WrittenAt(ctms, gg, speakerTurns, n, j);
      assert ks[j] == k;
    }
  }

  /** Which candidates are written, and where they lie, does not depend on the mode:
      only the transcripts and the mismatch counts differ. */
  lemma {:induction false} SpansIndependentOfMode(ctms: seq<Word>, gg: seq<GoodGap>, n: nat)
    requires ValidGoodGaps(ctms, gg) && n <= NumCandidates(gg)
    ensures var a, b := Written(ctms, gg, false, n), Written(ctms, gg, true, n);
      |a| == |b| && forall j :: 0 <= j < |a| ==>
        a[j].(text := b[j].text, mismatchCount := b[j].mismatchCount) == b[j]
    decreases n
  {
    if n > 0 {
      SpansIndependentOfMode(ctms, gg, n - 1);
    }
  }

  /** Alignments as a recogniser emits them: each word starts at or after time zero and
      ends no earlier than it starts, and no word starts before an earlier one ends. */
  predicate TimeOrdered(ctms: seq<Word>)
  {
    && (forall i :: 0 <= i < |ctms| ==> 0.0 <= ctms[i].start <= ctms[i].end)
    && (forall i, j :: 0 <= i < j < |ctms| ==> ctms[i].end <= ctms[j].start)
  }

  /** The end of the words before index `k`: zero when there are none. */
  function EndBefore(ctms: seq<Word>, k: nat): (secs: real)
    requires k <= |ctms|
  {
    if k == 0 then 0.0 else ctms[k - 1].end
  }

  /** On time-ordered alignments, `EndBefore` never decreases and stays at or below the
      start of word `k`. */
  lemma EndBeforeMonotone(ctms: seq<Word>, k: nat, l: nat)
    requires TimeOrdered(ctms) && k <= l <= |ctms|
    ensures EndBefore(ctms, k) <= EndBefore(ctms, l)
    ensures k < |ctms| ==> EndBefore(ctms, k) <= ctms[k].start
  {
    if 0 < k < l {
      assert ctms[k - 1].end <= ctms[l - 1].start;
    }
  }

  /** Well-formed records that follow the words in order without overlapping. */
  predicate RecordsInOrder(ctms: seq<Word>, clips: seq<Clip>)
  {
    && (forall j :: 0 <= j < |clips| ==> WellFormedRecord(ctms, clips[j]))
    && (forall j, j' :: 0 <= j < j' < |clips| ==> clips[j].endWord <= clips[j'].firstWord)
  }

  /** On time-ordered alignments, records in order span no more time than has passed by
      the end of the last one. */
  lemma {:induction false} DurationBound(ctms: seq<Word>, clips: seq<Clip>)
    requires TimeOrdered(ctms) && RecordsInOrder(ctms, clips)
    ensures TotalDuration(clips) <= EndBefore(ctms, if clips == [] then 0 else clips[|clips| - 1].endWord)
    decreases |clips|
  {
    if clips != [] {
      var p, c := clips[..|clips| - 1], clips[|clips| - 1];
      assert forall j :: 0 <= j < |p| ==> p[j] == clips[j];
      DurationBound(ctms, p);
      var b := if p == [] then 0 else p[|p| - 1].endWord;
      assert WellFormedRecord(ctms, c);
      if p != [] {
        assert p[|p| - 1].endWord <= c.firstWord;
      }
      EndBeforeMonotone(ctms, b, c.firstWord);
      EndBeforeMonotone(ctms, c.firstWord, c.firstWord);
    }
  }

  /** On time-ordered alignments `total_written` never exceeds the end of the last word:
      the coverage the script logs is at most 100%. */
  lemma CoverageBound(ctms: seq<Word>, minGap: real, speakerTurns: bool)
    requires |ctms| > 0 && TimeOrdered(ctms)
    ensures TotalDuration(Segmentation(ctms, minGap, speakerTurns)) <= ctms[|ctms| - 1].end
  {
    var gg := GoodGaps(ctms, minGap);
    var n := NumCandidates(gg);
    var clips := Segmentation(ctms, minGap, speakerTurns);
    forall j | 0 <= j < |clips| ensures WellFormedRecord(ctms, clips[j]) {
      WrittenWellFormed(ctms, gg, speakerTurns, n, j);
    }
    forall j, j' | 0 <= j < j' < |clips| ensures clips[j].endWord <= clips[j'].firstWord {
      WrittenOrdered(ctms, gg, speakerTurns, n, j, j');
    }
    DurationBound(ctms, clips);
    var b := if clips == [] then 0 else clips[|clips| - 1].endWord;
    EndBeforeMonotone(ctms, b, |ctms|);
  }

  /** How many candidates the loop has settled after visiting the first `i` good gaps. */
  function Settled(gg: seq<GoodGap>, i: nat): (n: nat)
    requires i <= |gg|
    ensures n <= NumCandidates(gg)
  {
    if i < |gg| then i else NumCandidates(gg)
  }

  /** gaps.py:107-109: the record of a kept clip, its times those of its first and last words. */
  method MakeRecord(ctms: seq<Word>, gg: seq<GoodGap>, speakerTurns: bool, i: nat,
                    clip: seq<Word>, words: string, count: nat)
    returns (record: Clip)
    requires ValidGoodGaps(ctms, gg) && i < NumCandidates(gg)
    requires clip == ctms[gg[i].index..gg[i + 1].index]
    requires words == ClipText(clip, speakerTurns)
    requires count == if speakerTurns then 0 else MismatchCount(clip)
    ensures record == Candidate(ctms, gg, speakerTurns, i)
  {
    var startSec, endSec := clip[0].start, clip[|clip| - 1].end;
    record := Clip(gg[i].index, gg[i + 1].index, startSec, endSec, words, |clip|, count);
  }

  /** gaps.py:74-121, one pass of the loop body for a good gap `i` that has a successor:
      the clip up to the next good gap is transcribed, and when it has enough words its
      record is written and its duration added. */
  method SegmentStep(ctms: seq<Word>, gg: seq<GoodGap>, speakerTurns: bool, i: nat,
                     clips: seq<Clip>, totalWritten: real)
    returns (clips': seq<Clip>, totalWritten': real)
    requires ValidGoodGaps(ctms, gg) && i < NumCandidates(gg)
    requires clips == Written(ctms, gg, speakerTurns, i) && totalWritten == TotalDuration(clips)
    ensures clips' == Written(ctms, gg, speakerTurns, i + 1) && totalWritten' == TotalDuration(clips')
  {
    var startIndex, endIndex := gg[i].index, gg[i + 1].index;
    var clip := ctms[startIndex..endIndex];
    var nWords := |clip|;
    var words, count := Transcribe(clip, speakerTurns);
    WrittenNext(ctms, gg, speakerTurns, i);
    clips', totalWritten' := clips, totalWritten;
    if nWords >= MinWords {
      var record := MakeRecord(ctms, gg, speakerTurns, i, clip, words, count);
      TotalDurationAppend(clips, record);
      clips' := clips + [record];
      totalWritten' := totalWritten + (record.endSec - record.startSec);
    }
  }

  /** gaps.py:72-121: the loop over the good gaps; the last one starts no candidate. */
  method Segment(ctms: seq<Word>, gg: seq<GoodGap>, speakerTurns: bool)
    returns (clips: seq<Clip>, totalWritten: real)
    requires ValidGoodGaps(ctms, gg)
    ensures clips == Written(ctms, gg, speakerTurns, NumCandidates(gg))
    ensures totalWritten == TotalDuration(clips)
  {
    clips, totalWritten := [], 0.0;
    for i := 0 to |gg|
      invariant clips == Written(ctms, gg, speakerTurns, Settled(gg, i))
      invariant totalWritten == TotalDuration(clips)
    {
      if i + 1 >= |gg| {
        continue;
      }
      clips, totalWritten := SegmentStep(ctms, gg, speakerTurns, i, clips, totalWritten);
    }
  }

  /** gaps.py:65-121: gaps, good gaps, then the loop. */
  method Process(ctms: seq<Word>, minGap: real, speakerTurns: bool)
    returns (clips: seq<Clip>, totalWritten: real)
    ensures clips == Segmentation(ctms, minGap, speakerTurns)
    ensures totalWritten == TotalDuration(clips)
  {
    var gaps := Gaps(ctms);
    var goodGaps := SelectGoodGaps(ctms, gaps, minGap, 0);
    clips, totalWritten := Segment(ctms, goodGaps, speakerTurns);
  }
}
