# Speech-clip segmentation of aligned transcripts

`gaps.py` cuts a long recording into short training clips. It reads the word
alignments of the recording (one record per recognised word: start and end
time, stored duration, recognised text, original text and a `case` tag). It then:

- measures the silence before every word, with a zero-time word in front of the
  first one;
- keeps as split points the "good gaps": a long silence before a word that is
  itself long and not a mismatch;
- walks the consecutive pairs of good gaps. Each pair delimits a candidate clip.
  A candidate of at least five words is written as audio and text, and its
  duration is added to `total_written`.

The transcript is built in one of two modes:

- plain mode: the recognised words, joined by spaces and stripped, plus a count
  of mismatched words;
- speaker-turn mode: the original words, joined, stripped and passed through
  seven regular-expression substitutions and a lower-casing, which keep the
  speaker-turn marker `¶`.

The model has four modules:

- `Alignment` (`alignment.dfy`): the word record, the gap list and the good-gap
  filter.
- `Text` (`text.dfy`): `" ".join`, `str.strip` and a reference `split(" ")`, the
  inverse of the join.
- `SpeakerTurns` (`speaker_turns.dfy`): the seven substitutions and the
  lower-casing, each as a string transform, and the pipeline that runs them in order. The allow-list
  substitution deletes at most 32 characters. The source passes `re.UNICODE`
  (value 32) in the position of `re.sub`'s `count` argument.
- `Segmenter` (`segmenter.dfy`): the clip record, the candidates, the loop over
  good gaps as an imperative `for` loop, and the specification functions
  `Written` and `TotalDuration` that the loop is proved against.

Python 2 semantics are followed:

- strings are byte strings, so whitespace for `strip` and `\s` is the six ASCII
  whitespace characters and `lower()` only changes `A`-`Z`;
- `$` also matches before a final newline.

Times are exact reals.

## Model

| member | source | states |
|---|---|---|
| Alignment.GapsFrom | gaps.py:66 | one gap per word; the first is measured from the given previous end, every later one is `start[i] - end[i-1]` |
| Alignment.IsGood | gaps.py:70 | a good gap: `gap > min_gap`, `duration > min_gap` and `case != 'mismatch'` (defined; GoodGapsExact states the filter keeps exactly these) |
| Alignment.Gaps | gaps.py:65-66 | `len(gaps) == len(ctms)`, `gaps[0] == ctms[0].start` (the zero word), `gaps[i] == ctms[i].start - ctms[i-1].end` for `i > 0` |
| Alignment.SelectGoodGaps | gaps.py:70 | every selected pair is `(i, gaps[i])` for an index at or after the scan position whose word passes all three tests; indices strictly increase; at most one pair per word |
| Alignment.GoodGaps | gaps.py:70 | soundness: each good gap is `(i, gaps[i])` with `gap > min_gap`, `duration > min_gap`, `case != 'mismatch'`; indices inside `ctms` and strictly increasing |
| Alignment.SelectGoodGapsComplete | gaps.py:70 | completeness of the scan: every index at or after the scan position that passes the test is selected |
| Alignment.GoodGapsExact | gaps.py:70 | `(j, gaps[j])` is a good gap if and only if word `j` passes the three-part test |
| Text.Split | gaps.py:103 | reference `split(" ")`: always at least one piece |
| Text.Join | gaps.py:91 | `" ".join(parts)`: the parts with one space between each pair (defined; its inverse is `Split`, see JoinSplit and SplitJoin) |
| Text.JoinSplit | gaps.py:103 | joining the pieces of a split gives back the string |
| Text.SplitJoin | gaps.py:103 | splitting a join of space-free words gives back the words |
| Text.JoinEnds | gaps.py:103 | a join of non-empty words starts with the first word's first character and ends with the last word's last character |
| Text.StripLeft | gaps.py:103 | `lstrip` returns a suffix of its input that does not start with whitespace |
| Text.StripLeftDropsWs | gaps.py:103 | everything `lstrip` drops is whitespace |
| Text.StripRight | gaps.py:103 | `rstrip` returns a prefix of its input that does not end with whitespace |
| Text.StripRightDropsWs | gaps.py:103 | everything `rstrip` drops is whitespace |
| Text.Strip | gaps.py:103 | the stripped string is no longer than the input and has no whitespace at either end |
| Text.StripMiddle | gaps.py:103 | the stripped string is a slice `s[a..b]` with only whitespace before `a` and after `b` |
| Text.StripNoWsEnds | gaps.py:103 | a string with no whitespace at its ends is its own strip |
| Text.SplitStripJoin | gaps.py:103 | splitting the stripped join of non-empty, whitespace-free words gives back the words |
| Segmenter.RecognizedWords | gaps.py:103 | one recognised word per clip word |
| Segmenter.RecognizedWordsAt | gaps.py:103 | entry `i` is the `word` field of clip word `i` |
| Segmenter.OriginalWords | gaps.py:91 | one original word per clip word |
| Segmenter.OriginalWordsAt | gaps.py:91 | entry `i` is the `orig` field of clip word `i` |
| Segmenter.PlainTextWords | gaps.py:103 | the plain transcript splits back into exactly the recognised words when these are non-empty and free of whitespace |
| Segmenter.PlainText | gaps.py:103 | the plain transcript: recognised words joined by spaces and stripped (defined; PlainTextWords recovers the words from it) |
| Segmenter.SpeakerTurnText | gaps.py:91-100 | the speaker-turn transcript: original words joined, stripped and normalised (defined; BuildSpeakerTurnText is proved against it and NormalizeShape describes it) |
| Segmenter.MismatchCount | gaps.py:104 | `0 <= count <= n_words`; zero exactly when no word is a mismatch; `n_words` exactly when every word is |
| Segmenter.BuildSpeakerTurnText | gaps.py:91-100 | the eight reassignments of `words` give the normalised join of the original words, and that text has the speaker-turn shape |
| Segmenter.Transcribe | gaps.py:89-104 | the transcript of the selected mode; the count is the mismatch count in plain mode and 0 in speaker-turn mode, never above `n_words` |
| Segmenter.Candidate | gaps.py:82-86 | candidate `k` spans the words from good gap `k` up to good gap `k+1` |
| Segmenter.CandidateShape | gaps.py:82-88 | every candidate is non-empty (`start_index < end_index`), inside `ctms`, timed by its first word's start and last word's end, with no more mismatches than words |
| Segmenter.Kept | gaps.py:107 | a candidate is kept when its good gaps are at least five words apart (defined; WrittenExactly ties it to what is written) |
| Segmenter.Written | gaps.py:73-121 | the records of the kept candidates among the first `n`, in order (defined; Segment is proved against it, WrittenAt, WrittenOrdered and WrittenExactly describe it) |
| Segmenter.TotalDuration | gaps.py:118-121 | `total_written`: the sum of `end_sec - start_sec` over records (defined; Segment is proved against it, CoverageBound bounds it) |
| Segmenter.KeptUpTo | gaps.py:73-107 | the kept candidates among the first `n` number at most `n` |
| Segmenter.KeptUpToSorted | gaps.py:73-107 | the kept candidates are below `n`, have at least five words, and are listed in increasing order |
| Segmenter.KeptUpToExactly | gaps.py:107 | a candidate is listed exactly when it has at least five words |
| Segmenter.WrittenLength | gaps.py:107 | one record is written per kept candidate |
| Segmenter.WrittenAt | gaps.py:107-109 | the `j`-th record written is the record of the `j`-th kept candidate |
| Segmenter.WrittenSpan | gaps.py:82-86 | the `j`-th record spans the words between the good gaps of the `j`-th kept candidate |
| Segmenter.WrittenWellFormed | gaps.py:107-109 | every written record has at least five words, lies inside `ctms` and has time range `(clip[0].start, clip[-1].end)` |
| Segmenter.WrittenOrdered | gaps.py:73-86 | written records follow the words in order and never overlap |
| Segmenter.WrittenAtMost | gaps.py:73-79 | at most one record per candidate, so at most `max(0, len(good_gaps) - 1)` records |
| Segmenter.WrittenExactly | gaps.py:107 | a candidate is written if and only if it has at least five words |
| Segmenter.SpansIndependentOfMode | gaps.py:103-107 | which candidates are written, and their words and times, are the same in both modes; the mismatch count never affects writing |
| Segmenter.DurationBound | gaps.py:118-121 | on time-ordered words, the summed durations of well-formed records in word order are at most the end time of the last record's last word |
| Segmenter.CoverageBound | gaps.py:121-123 | on time-ordered words, `total_written` is at most `ctms[-1]['end']`, so the logged coverage is at most 100% |
| Segmenter.Settled | gaps.py:73-79 | the loop's progress never exceeds the number of candidates |
| Segmenter.SegmentStep | gaps.py:74-121 | one loop pass extends the written records and `total_written` exactly as the specification functions say |
| Segmenter.Segment | gaps.py:72-121 | the loop writes exactly the records of the candidates with at least five words, in order; `total_written` is the sum of their durations |
| Segmenter.Process | gaps.py:65-121 | gaps, good gaps and the loop together give the segmentation of the recording and the total duration written |
| SpeakerTurns.DashToSpace | gaps.py:92 | same length, and no dash is left |
| SpeakerTurns.IsAllowed | gaps.py:95 | the class `[a-zA-Z0-9¶\.\,\' ]`: letters, digits, `¶`, `.`, `,`, `'` and space (defined; AllowedBeforeLower and NormalizeNormalForm use it) |
| SpeakerTurns.DashToSpaceAt | gaps.py:92 | each dash becomes a space; every other character stays |
| SpeakerTurns.FoldPunct | gaps.py:94 | same length, and no `?` or `!` is left |
| SpeakerTurns.FoldPunctAt | gaps.py:94 | each `?` and `!` becomes `.`; every other character stays |
| SpeakerTurns.DisallowedCount | gaps.py:95 | at most one per character |
| SpeakerTurns.RemoveFirstDisallowed | gaps.py:95 | deletes `min(count, #disallowed)` characters, all disallowed, keeping the allowed ones in order; with no more than `count` disallowed the result is all allowed |
| SpeakerTurns.RemoveFirstDisallowedWithin | gaps.py:95 | the allow-list step adds no character: every character of the result occurs in the input |
| SpeakerTurns.RemoveNoneDisallowed | gaps.py:95 | with a count of zero nothing is deleted |
| SpeakerTurns.RemoveAllDisallowed | gaps.py:95 | on disallowed characters only, exactly the first `count` are deleted |
| SpeakerTurns.CutPoint | gaps.py:95 | the cut after the first `min(count, #disallowed)` disallowed characters lies inside the string |
| SpeakerTurns.CutPointCount | gaps.py:95 | the prefix before the cut holds exactly `min(count, #disallowed)` disallowed characters |
| SpeakerTurns.RemoveFirstDisallowedPrefix | gaps.py:95 | the deleted characters are the first `min(count, #disallowed)` disallowed ones: the result is the allowed part of the prefix holding them, followed by the rest of the input unchanged |
| SpeakerTurns.DropTrailingMarker | gaps.py:98 | `¶$` deletes the marker at the end, or the one before a final newline; otherwise nothing changes |
| SpeakerTurns.EndMarkerAt | gaps.py:98 | where `¶$` matches: the last character, or the one before a final newline; -1 otherwise (defined; DropTrailingMarker and TrimMarkersAt delete there) |
| SpeakerTurns.DropTrailingMarkerWithin | gaps.py:98 | deleting the end marker adds no character: every character of the result occurs in the input |
| SpeakerTurns.DropTrailingMarkerSpaced | gaps.py:98 | after the spacing step the marker at the end is gone and every other marker keeps its space |
| SpeakerTurns.TrimMarkers | gaps.py:96 | deletes at most two characters, and nothing when no marker is at either end |
| SpeakerTurns.TrimMarkersAt | gaps.py:96 | the deleted characters are a leading marker and the marker `¶$` matches in what follows it; every other character is kept, in order |
| SpeakerTurns.TrimMarkersWithin | gaps.py:96 | trimming adds no character: every character of the result occurs in the input |
| SpeakerTurns.SpaceMarkers | gaps.py:97 | empty exactly when the input is; the first character is kept, or becomes a space when it is a marker; the last character is kept |
| SpeakerTurns.SpaceMarkersSpaced | gaps.py:97 | afterwards every marker has a space right before it |
| SpeakerTurns.SpaceMarkersDrawn | gaps.py:97 | the spacing adds no character other than a space |
| SpeakerTurns.SpaceMarkersOneMarker | gaps.py:97 | one marker between marker-free pieces gets exactly one space before it and none after |
| SpeakerTurns.CollapseWs | gaps.py:99 | empty exactly when the input is; a non-whitespace first or last character is kept |
| SpeakerTurns.NonWs | gaps.py:99 | the non-whitespace characters are no more than the whole string |
| SpeakerTurns.CollapseWsKeepsNonWs | gaps.py:99 | the collapse keeps every non-whitespace character, in order, and adds none |
| SpeakerTurns.CollapseRun | gaps.py:99 | a run of two or more whitespace characters, up to the end or to a non-whitespace character, becomes exactly one space |
| SpeakerTurns.CollapseKeepsFirst | gaps.py:99 | a character that does not start a run of two whitespace characters is kept, and the collapse goes on after it |
| SpeakerTurns.CollapseWsNoDouble | gaps.py:99 | afterwards no two whitespace characters are adjacent |
| SpeakerTurns.CollapseWsSpaced | gaps.py:99 | the collapse keeps every marker spaced |
| SpeakerTurns.CollapseWsDrawn | gaps.py:99 | the collapse adds no character other than a space |
| SpeakerTurns.CollapseNoDouble | gaps.py:99 | without double whitespace nothing changes |
| SpeakerTurns.CollapseUndoesSpacing | gaps.py:97-99 | on a spaced string with single spaces, the collapse removes exactly what the spacing inserted |
| SpeakerTurns.LowerChar | gaps.py:100 | ASCII lower-casing: `A`-`Z` go to `a`-`z` (code + 32), every other character stays |
| SpeakerTurns.Lower | gaps.py:100 | same length |
| SpeakerTurns.LowerAt | gaps.py:100 | each character is lower-cased on its own |
| SpeakerTurns.LowerAtClass | gaps.py:100 | lower-casing changes only upper-case letters, into lower-case letters |
| SpeakerTurns.LowerNoUpper | gaps.py:100 | without upper case nothing changes |
| SpeakerTurns.Normalize | gaps.py:92-100 | the eight steps run in source order, the allow-list step with count 32 (defined; NormalizeShape, NormalizeNormalForm and NormalizeIdempotent describe it) |
| SpeakerTurns.LowerTurnShaped | gaps.py:100 | lower-casing keeps the speaker-turn shape and removes upper case |
| SpeakerTurns.BeforeLowerAvoids | gaps.py:92-99 | after the first seven steps no `-`, `?` or `!` remains |
| SpeakerTurns.BeforeLowerShape | gaps.py:92-99 | after the first seven steps there is no double whitespace, no marker at either end, and a space before every marker |
| SpeakerTurns.NormalizeShape | gaps.py:92-100 | every normalised transcript has no `-`, `?`, `!`, upper case or double whitespace, does not end with `¶`, and has a space right before every `¶` |
| SpeakerTurns.AllowedBeforeLower | gaps.py:95-99 | with at most 32 disallowed characters, nothing outside the allow-list survives the first seven steps |
| SpeakerTurns.LowerAllowed | gaps.py:100 | lower-casing keeps allowed characters allowed |
| SpeakerTurns.NormalizeNormalForm | gaps.py:92-100 | with at most 32 disallowed characters, the output is in normal form: allowed characters only, in the speaker-turn shape |
| SpeakerTurns.DashToSpaceNoDash | gaps.py:92 | without dashes the step changes nothing |
| SpeakerTurns.FoldPunctNoPunct | gaps.py:94 | without `?` or `!` the step changes nothing |
| SpeakerTurns.CharStepsFixed | gaps.py:92-95 | on allowed characters the first three steps change nothing |
| SpeakerTurns.MarkerStepsFixed | gaps.py:96-99 | on a string in normal form the marker and whitespace steps change nothing |
| SpeakerTurns.NormalFormFixed | gaps.py:92-100 | a string in normal form is its own normalisation |
| SpeakerTurns.NormalizeIdempotent | gaps.py:92-100 | normalising twice is normalising once, when the first pass had at most 32 characters to delete |
| SpeakerTurns.NormalizeDropped | gaps.py:92-100 | one character outside the allow-list, and not `-`, `?` or `!`, normalises to the empty string |
| SpeakerTurns.CharStepsDropped33 | gaps.py:95 | of 33 such characters the allow-list step keeps only the last |
| SpeakerTurns.MarkerStepsDropped | gaps.py:96-100 | the later steps leave one such character alone |
| SpeakerTurns.NormalizeDropped33 | gaps.py:95 | 33 such characters normalise to the last of them |
| SpeakerTurns.CountLimitBreaksIdempotence | gaps.py:95 | for 33 such characters, normalising once gives one character and normalising again gives the empty string |
| SpeakerTurns.HashesNotIdempotent | gaps.py:95 | 33 `#` normalise to `#`, which normalises to the empty string |
| SpeakerTurns.ExampleCharSteps | gaps.py:92-95 | `hello¶How are you?` becomes `hello¶How are you.` after the first three steps |
| SpeakerTurns.ExampleTrim | gaps.py:96 | `hello¶How are you.` has no marker to trim |
| SpeakerTurns.ExampleMarkerSteps | gaps.py:96-99 | the marker steps turn `hello¶How are you.` into `hello ¶How are you.` |
| SpeakerTurns.ExampleCollapse | gaps.py:98-99 | `hello ¶How are you.` has nothing to drop or collapse |
| SpeakerTurns.ExampleLower | gaps.py:100 | `hello ¶How are you.` lower-cases to `hello ¶how are you.` |
| SpeakerTurns.ExampleGluedMarker | gaps.py:92-100 | `hello¶How are you?` normalises to `hello ¶how are you.`: a space is inserted before the marker, none after it |

## Left out

- Command-line parsing (gaps.py:14-22): `min_gap` and the speaker-turn flag are parameters. The minimum word count is the constant 5, as in the source.
- Logging and the progress bar (gaps.py:24-25, 73, 119, 123): they have no effect on the result.
- Directory creation, existence checks, the S3 download, the `sox` conversion and trimming, and `sys.exit` on a `sox` failure (gaps.py:32-60, 111): external processes and the network. A written clip is a record appended to the output sequence.
- Reading the alignment JSON and writing the `.txt` file with its trailing newline (gaps.py:62-63, 113-116): I/O. The alignments are an input sequence and the transcript is a field of the record.
- File names built with `int(start_sec*100)` (gaps.py:56, 113): float truncation.
- The coverage percentage `total_written / ctms[-1]['end']` (gaps.py:123): division in a log line. It fails on an empty alignment list and when the last word ends at 0; the model does not compute it. CoverageBound proves the numerator is at most the denominator.
- Segmenter.CoverageBound: holds only for time-ordered alignments (non-negative times, each word ending after it starts, no word starting before an earlier one ends). gaps.py does not check this.
- Floating point: times are exact reals, so rounding in `second.start - first.end` and in the running sum is not modelled.
- Byte-level UTF-8: `¶` is two bytes, `\xc2\xb6`, in the Python 2 byte strings of gaps.py:91-98. It is one character here. The class `[^a-zA-Z0-9¶\.\,\' ]` of gaps.py:95 keeps the bytes `\xc2` and `\xb6` individually, and its count of 32 counts deleted bytes. A character of two to four bytes with neither of those bytes (`é`, a curly apostrophe, an emoji) uses that many of the 32 deletions in the source and one in the model. A character with one of them (a no-break space, `«`, `§`, `ö`) uses one deletion in the source and leaves a lone byte, where the model deletes the whole character: `Schröder` gives `schr\xb6der` in the source and `schrder` here. Two such leftovers can form a marker that gaps.py:96-97 then trim or space: `§ö` becomes `¶`. The "at most 32" preconditions of NormalizeNormalForm, AllowedBeforeLower and NormalizeIdempotent count characters.
- Other non-ASCII text: the words are sequences of characters, and `.encode('utf-8')` is the identity.
- asr_data_gen.py: a command-line wrapper around a data generator that is not part of this model.
- SpeakerTurns.NormalizeIdempotent: holds only when the first pass's allow-list step had at most 32 characters to delete. The count of 32 makes unconditional idempotence false. CountLimitBreaksIdempotence and HashesNotIdempotent prove this for 33 deleted characters.
- Normalisation is not idempotent: 33 `#` normalise to `#`, which normalises to the empty string (CountLimitBreaksIdempotence, HashesNotIdempotent).
- `hello¶How are you?` normalises to `hello ¶how are you.`, because `¶` → ` ¶` inserts no space after the marker (ExampleGluedMarker).
- SpeakerTurns.RemoveFirstDisallowed: its own contract fixes how many characters are deleted and that they are disallowed, but not which ones. RemoveFirstDisallowedPrefix states that they are the first ones.
- SpeakerTurns.CollapseWs: its own contract covers only emptiness and the two ends. CollapseRun (a run of two or more becomes one space) and CollapseKeepsFirst (any other character is kept) state what happens in between; CollapseWsKeepsNonWs and CollapseWsNoDouble follow.
- The clip record has no recording identifier: it is the same for every clip and takes no part in any decision.
