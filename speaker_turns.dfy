/** The speaker-turn transcript normalisation of gaps.py:92-100: seven regular-
    expression substitutions and a lower-casing, applied in a fixed order, each
    modelled as a named string transform. The speaker-turn marker `¶` is one character here. */
module SpeakerTurns {
  import opened Text

  /** The speaker-turn marker. */
  const Marker: char := '\U{B6}'

  /** The fourth positional argument of the allow-list substitution is `re.UNICODE`,
      whose value 32 `re.sub` takes as its `count`: at most 32 characters are removed. */
  const RegexCount: nat := 32

  predicate IsUpper(c: char)
  {
    'A' <= c <= 'Z'
  }

  /** The allow-list `[a-zA-Z0-9¶\.\,\' ]`. */
  predicate IsAllowed(c: char)
  {
    ('a' <= c <= 'z') || IsUpper(c) || ('0' <= c <= '9') || c == Marker || c == '.' || c == ',' || c == '\'' || c == ' '
  }

  /** A marker at position `k > 0` has a space right before it. */
  predicate SpacedAt(s: string, k: nat)
    requires 0 < k < |s|
  {
    s[k] == Marker ==> s[k - 1] == ' '
  }

  /** Every marker after the first position has a space right before it. */
  predicate MarkersSpaced(s: string)
  {
    forall k :: 0 < k < |s| ==> SpacedAt(s, k)
  }

  /** Positions `i` and `i + 1` both hold whitespace. */
  predicate WsPair(s: string, i: nat)
    requires i + 1 < |s|
  {
    IsWs(s[i]) && IsWs(s[i + 1])
  }

  /** No two whitespace characters in a row. */
  predicate NoDoubleWs(s: string)
  {
    forall i :: 0 <= i < |s| - 1 ==> !WsPair(s, i)
  }

  function Min(a: nat, b: nat): (m: nat)
  {
    if a <= b then a else b
  }

  /** gaps.py:92, `re.sub("\-", " ", s)`: every dash becomes a space. */
  function DashToSpace(s: string): (r: string)
    ensures |r| == |s| && '-' !in r
    decreases |s|
  {
    if s == [] then [] else [if s[0] == '-' then ' ' else s[0]] + DashToSpace(s[1..])
  }

  /** Position by position, a dash becomes a space and every other character stays. */
  lemma {:induction false} DashToSpaceAt(s: string, i: nat)
    requires i < |s|
    ensures DashToSpace(s)[i] == if s[i] == '-' then ' ' else s[i]
    decreases i
  {
    if i > 0 {
      DashToSpaceAt(s[1..], i - 1);
    }
  }

  /** gaps.py:94, `re.sub(r"[\?!]", ".", s)`: question and exclamation marks become full stops. */
  function FoldPunct(s: string): (r: string)
    ensures |r| == |s| && '?' !in r && '!' !in r
    decreases |s|
  {
    if s == [] then [] else [if s[0] == '?' || s[0] == '!' then '.' else s[0]] + FoldPunct(s[1..])
  }

  /** Position by position, `?` and `!` become `.` and every other character stays. */
  lemma {:induction false} FoldPunctAt(s: string, i: nat)
    requires i < |s|
    ensures FoldPunct(s)[i] == if s[i] == '?' || s[i] == '!' then '.' else s[i]
    decreases i
  {
    if i > 0 {
      FoldPunctAt(s[1..], i - 1);
    }
  }

  /** The number of characters outside the allow-list. */
  function DisallowedCount(s: string): (n: nat)
    ensures n <= |s|
    decreases |s|
  {
    if s == [] then 0 else (if IsAllowed(s[0]) then 0 else 1) + DisallowedCount(s[1..])
  }

  /** The allowed characters of `s`, in order. */
  function AllowedPart(s: string): (r: string)
    decreases |s|
  {
    if s == [] then [] else (if IsAllowed(s[0]) then [s[0]] else []) + AllowedPart(s[1..])
  }

  /** gaps.py:95 with its count of `n`: the first `n` disallowed characters are deleted,
      from the left, and everything else is kept in order. */
  function RemoveFirstDisallowed(s: string, n: nat): (r: string)
    ensures |r| == |s| - Min(n, DisallowedCount(s))
    ensures DisallowedCount(r) == DisallowedCount(s) - Min(n, DisallowedCount(s))
    ensures AllowedPart(r) == AllowedPart(s)
    ensures DisallowedCount(s) <= n ==> forall i :: 0 <= i < |r| ==> IsAllowed(r[i])
    ensures DisallowedCount(s) == 0 ==> r == s
    decreases |s|
  {
    if s == [] then []
    else if !IsAllowed(s[0]) && n > 0 then RemoveFirstDisallowed(s[1..], n - 1)
    else [s[0]] + RemoveFirstDisallowed(s[1..], n)
  }

  /** Every character of `r` is a space or a character of `s`. */
  predicate Drawn(r: string, s: string)
  {
    forall i :: 0 <= i < |r| ==> r[i] == ' ' || r[i] in s
  }

  /** Every character of `r` is a character of `s`. */
  predicate Within(r: string, s: string)
  {
    forall i :: 0 <= i < |r| ==> r[i] in s
  }

  /** The allow-list step adds no character: every character of the result occurs in the input. */
  lemma {:induction false} RemoveFirstDisallowedWithin(s: string, n: nat)
    ensures Within(RemoveFirstDisallowed(s, n), s)
    decreases |s|
  {
    if s != [] {
      RemoveFirstDisallowedWithin(s[1..], if !IsAllowed(s[0]) && n > 0 then n - 1 else n);
      var r := RemoveFirstDisallowed(s, n);
      forall i | 0 <= i < |r| ensures r[i] in s {
        if !(IsAllowed(s[0]) || n == 0) {
        } else if i > 0 {
          assert r[i] == RemoveFirstDisallowed(s[1..], n)[i - 1];
        }
      }
    }
  }

  /** A cut after the first `min(n, D)` disallowed characters of `s`: the end of the
      prefix the allow-list step works on. */
  function CutPoint(s: string, n: nat): (p: nat)
    ensures p <= |s|
    decreases |s|
  {
    if n == 0 || s == [] then 0
    else 1 + CutPoint(s[1..], if IsAllowed(s[0]) then n else n - 1)
  }

  /** Counting and filtering a non-empty prefix start with its first character. */
  lemma PrefixCons(s: string, q: nat)
    requires 0 < q <= |s|
    ensures DisallowedCount(s[..q]) == (if IsAllowed(s[0]) then 0 else 1) + DisallowedCount(s[1..][..q - 1])
    ensures AllowedPart(s[..q]) == (if IsAllowed(s[0]) then [s[0]] else []) + AllowedPart(s[1..][..q - 1])
  {
    assert s[..q][1..] == s[1..][..q - 1];
  }

  /** The prefix up to the cut holds `min(n, D)` disallowed characters. */
  lemma {:induction false} CutPointCount(s: string, n: nat)
    ensures DisallowedCount(s[..CutPoint(s, n)]) == Min(n, DisallowedCount(s))
    decreases |s|
  {
    if n == 0 || s == [] {
      assert s[..0] == [];
    } else {
      var t, m := s[1..], if IsAllowed(s[0]) then n else n - 1;
      CutPointCount(t, m);
      PrefixCons(s, CutPoint(t, m) + 1);
    }
  }

  /** One step of `RemoveFirstDisallowedPrefix` over a kept first character. */
  lemma RemoveCutKept(s: string, n: nat)
    requires s != [] && n > 0 && IsAllowed(s[0])
    requires var t := s[1..]; var p := CutPoint(t, n);
      RemoveFirstDisallowed(t, n) == AllowedPart(t[..p]) + t[p..]
    ensures var p := CutPoint(s, n);
      RemoveFirstDisallowed(s, n) == AllowedPart(s[..p]) + s[p..]
  {
    var t := s[1..];
    var p := CutPoint(t, n);
    var a, b := AllowedPart(t[..p]), t[p..];
    PrefixCons(s, p + 1);
    assert s[p + 1..] == b;
    calc {
      RemoveFirstDisallowed(s, n);
      [s[0]] + RemoveFirstDisallowed(t, n);
      [s[0]] + (a + b);
      ([s[0]] + a) + b;
    }
  }

  /** One step of `RemoveFirstDisallowedPrefix` over a deleted first character. */
  lemma RemoveCutDeleted(s: string, n: nat)
    requires s != [] && n > 0 && !IsAllowed(s[0])
    requires var t := s[1..]; var p := CutPoint(t, n - 1);
      RemoveFirstDisallowed(t, n - 1) == AllowedPart(t[..p]) + t[p..]
    ensures var p := CutPoint(s, n);
      RemoveFirstDisallowed(s, n) == AllowedPart(s[..p]) + s[p..]
  {
    var t := s[1..];
    var p := CutPoint(t, n - 1);
    PrefixCons(s, p + 1);
    assert s[p + 1..] == t[p..];
  }

  /** The allow-list step deletes the first `min(n, D)` disallowed characters and nothing
      else: the result is the allowed part of a prefix holding exactly that many of them,
      followed by the rest of the string unchanged. */
  lemma {:induction false} RemoveFirstDisallowedPrefix(s: string, n: nat)
    ensures var p := CutPoint(s, n);
      && DisallowedCount(s[..p]) == Min(n, DisallowedCount(s))
      && RemoveFirstDisallowed(s, n) == AllowedPart(s[..p]) + s[p..]
    decreases |s|
  {
    CutPointCount(s, n);
    if n == 0 || s == [] {
      RemoveNoneDisallowed(s);
      assert s[..0] == [] && s[0..] == s;
    } else if IsAllowed(s[0]) {
      RemoveFirstDisallowedPrefix(s[1..], n);
      RemoveCutKept(s, n);
    } else {
      RemoveFirstDisallowedPrefix(s[1..], n - 1);
      RemoveCutDeleted(s, n);
    }
  }

  /** Where `¶$` matches: at the last character, or (Python's `$` also matches before
      a final newline) at the one before a final `\n`; -1 when it does not match. */
  function EndMarkerAt(s: string): (p: int)
  {
    if |s| >= 1 && s[|s| - 1] == Marker then |s| - 1
    else if |s| >= 2 && s[|s| - 1] == '\n' && s[|s| - 2] == Marker then |s| - 2
    else -1
  }

  /** gaps.py:98, `re.sub(r"¶$", "", s)`: the marker that `¶$` matches is deleted. */
  function DropTrailingMarker(s: string): (r: string)
    ensures |r| == |s| || |r| == |s| - 1
    ensures EndMarkerAt(s) < 0 ==> r == s
    ensures EndMarkerAt(s) >= 0 ==> |r| == |s| - 1 && forall i :: 0 <= i < |r| ==> r[i] == (if i < EndMarkerAt(s) then s[i] else s[i + 1])
  {
    var p := EndMarkerAt(s);
    if p < 0 then s
    else
      var r := s[..p] + s[p + 1..];
      assert forall i :: 0 <= i < |r| ==> r[i] == (if i < p then s[i] else s[i + 1]);
      r
  }

  /** Deleting the end marker adds no character: every character of the result occurs in the input. */
  lemma DropTrailingMarkerWithin(s: string)
    ensures Within(DropTrailingMarker(s), s)
  {
    var r := DropTrailingMarker(s);
    var p := EndMarkerAt(s);
    forall i | 0 <= i < |r| ensures r[i] in s {
      if p >= 0 && i >= p {
        assert r[i] == s[i + 1];
      } else {
        assert r[i] == s[i];
      }
    }
  }

  /** Once every marker has a space before it, deleting the marker `¶$` matches leaves
      no marker at the end and keeps the others spaced. */
  lemma DropTrailingMarkerSpaced(s: string)
    requires MarkersSpaced(s) && (s == [] || s[0] != Marker)
    ensures var r := DropTrailingMarker(s);
      MarkersSpaced(r) && (r == [] || (r[0] != Marker && r[|r| - 1] != Marker))
  {
    var p := EndMarkerAt(s);
    var r := DropTrailingMarker(s);
    if p >= 0 {
      assert p > 0;
      forall k | 0 < k < |r| ensures SpacedAt(r, k) {
        if k < p {
          assert SpacedAt(s, k);
        }
      }
      if p == |s| - 1 {
        assert SpacedAt(s, p);
      }
    }
  }

  /** gaps.py:96, `re.sub(r"^¶|¶$", "", s)`: a marker in first position is deleted, and
      so is the one `¶$` matches in what follows it. */
  function TrimMarkers(s: string): (r: string)
    ensures |s| - 2 <= |r| <= |s|
    ensures (s == [] || s[0] != Marker) && EndMarkerAt(s) < 0 ==> r == s
  {
    if |s| > 0 && s[0] == Marker then DropTrailingMarker(s[1..]) else DropTrailingMarker(s)
  }

  /** Which characters the trim deletes: a leading marker (offset `d`) and then the one
      `¶$` matches in the rest (position `e` of the rest); every other character is kept
      in order. */
  lemma TrimMarkersAt(s: string)
    ensures var r := TrimMarkers(s);
      var d := if |s| > 0 && s[0] == Marker then 1 else 0;
      var e := EndMarkerAt(s[d..]);
      && |r| == |s| - d - (if e < 0 then 0 else 1)
      && forall i :: 0 <= i < |r| ==> r[i] == (if e < 0 || i < e then s[d + i] else s[d + i + 1])
  {
  }

  /** gaps.py:97, `re.sub(r"¶", " ¶", s)`: a space is inserted before every marker. */
  function SpaceMarkers(s: string): (r: string)
    ensures (r == []) == (s == [])
    ensures |s| > 0 ==> r[0] == (if s[0] == Marker then ' ' else s[0])
    ensures |s| > 0 ==> r[|r| - 1] == s[|s| - 1]
    decreases |s|
  {
    if s == [] then []
    else (if s[0] == Marker then [' ', Marker] else [s[0]]) + SpaceMarkers(s[1..])
  }

  /** gaps.py:99, `re.sub("\s{2,}", " ", s)`: every run of two or more whitespace
      characters becomes one space; a lone whitespace character is kept as it is.
      Replacing the first two characters of a run by one space and rescanning
      yields the same result as replacing the whole run at once. */
  function CollapseWs(s: string): (r: string)
    ensures (r == []) == (s == [])
    ensures |s| > 0 && !IsWs(s[0]) ==> r[0] == s[0]
    ensures |s| > 0 && IsWs(s[0]) ==> IsWs(r[0])
    ensures |s| > 0 && !IsWs(s[|s| - 1]) ==> r[|r| - 1] == s[|s| - 1]
    ensures |s| > 0 && IsWs(s[|s| - 1]) ==> IsWs(r[|r| - 1])
    decreases |s|
  {
    if s == [] then []
    else if IsWs(s[0]) && |s| > 1 && IsWs(s[1]) then CollapseWs([' '] + s[2..])
    else [s[0]] + CollapseWs(s[1..])
  }

  /** After the collapse no two whitespace characters are adjacent. */
  lemma {:induction false} CollapseWsNoDouble(s: string)
    ensures NoDoubleWs(CollapseWs(s))
    decreases |s|
  {
    if s == [] {
    } else if IsWs(s[0]) && |s| > 1 && IsWs(s[1]) {
      CollapseWsNoDouble([' '] + s[2..]);
    } else {
      var t := CollapseWs(s[1..]);
      CollapseWsNoDouble(s[1..]);
      var r := [s[0]] + t;
      forall i | 0 <= i < |r| - 1 ensures !WsPair(r, i) {
        if i > 0 {
          assert !WsPair(t, i - 1);
        }
      }
    }
  }

  /** The characters of `s` that are not whitespace, in order. */
  function NonWs(s: string): (r: string)
    ensures |r| <= |s|
    decreases |s|
  {
    if s == [] then [] else (if IsWs(s[0]) then [] else [s[0]]) + NonWs(s[1..])
  }

  /** The collapse only rewrites whitespace: the other characters survive, in order. */
  lemma {:induction false} CollapseWsKeepsNonWs(s: string)
    ensures NonWs(CollapseWs(s)) == NonWs(s)
    decreases |s|
  {
    if s == [] {
    } else if IsWs(s[0]) && |s| > 1 && IsWs(s[1]) {
      var u := [' '] + s[2..];
      CollapseWsKeepsNonWs(u);
      assert u[1..] == s[2..] && s[1..][1..] == s[2..];
    } else {
      CollapseWsKeepsNonWs(s[1..]);
      assert ([s[0]] + CollapseWs(s[1..]))[1..] == CollapseWs(s[1..]);
    }
  }

  /** The collapse keeps every marker spaced: a run before a marker becomes one space. */
  lemma {:induction false} CollapseWsSpaced(s: string)
    requires MarkersSpaced(s)
    ensures MarkersSpaced(CollapseWs(s))
    decreases |s|
  {
    if s == [] {
    } else if IsWs(s[0]) && |s| > 1 && IsWs(s[1]) {
      var u := [' '] + s[2..];
      forall k | 0 < k < |u| ensures SpacedAt(u, k) {
        assert SpacedAt(s, k + 1);
      }
      CollapseWsSpaced(u);
    } else {
      var t := CollapseWs(s[1..]);
      forall k | 0 < k < |s| - 1 ensures SpacedAt(s[1..], k) {
        assert SpacedAt(s, k + 1);
      }
      CollapseWsSpaced(s[1..]);
      var r := [s[0]] + t;
      forall k | 0 < k < |r| ensures SpacedAt(r, k) {
        if k == 1 {
          if IsWs(s[1]) {
            assert !IsWs(s[0]);
          } else if s[1] == Marker {
            assert SpacedAt(s, 1);
          }
        } else {
          assert SpacedAt(t, k - 1);
        }
      }
    }
  }

  /** After the insertion every marker except one in first position has a space before it. */
  lemma {:induction false} SpaceMarkersSpaced(s: string)
    ensures MarkersSpaced(SpaceMarkers(s))
    decreases |s|
  {
    if s != [] {
      var h: string := if s[0] == Marker then [' ', Marker] else [s[0]];
      var t := SpaceMarkers(s[1..]);
      SpaceMarkersSpaced(s[1..]);
      var r := h + t;
      assert r == SpaceMarkers(s);
      forall k | 0 < k < |r| ensures SpacedAt(r, k) {
        if k > |h| {
          assert SpacedAt(t, k - |h|);
        }
      }
    }
  }

  /** ASCII lower-casing of one character, as `str.lower()` does on a byte string. */
  function LowerChar(c: char): (d: char)
    ensures !IsUpper(d)
    ensures IsUpper(c) ==> d as int == c as int + 32
    ensures !IsUpper(c) ==> d == c
    ensures IsUpper(c) ==> 'a' <= d <= 'z'
  {
    if IsUpper(c) then (c as int + 32) as char else c
  }

  /** gaps.py:100, `s.lower()`. */
  function Lower(s: string): (r: string)
    ensures |r| == |s|
    decreases |s|
  {
    if s == [] then [] else [LowerChar(s[0])] + Lower(s[1..])
  }

  /** Position by position, each character is lower-cased on its own. */
  lemma {:induction false} LowerAt(s: string, i: nat)
    requires i < |s|
    ensures Lower(s)[i] == LowerChar(s[i])
    decreases i
  {
    if i > 0 {
      LowerAt(s[1..], i - 1);
    }
  }

  /** The eight steps of gaps.py:92-100: seven substitutions (the allow-list one with its
      count of 32) and the lower-casing. */
  datatype Step = DashStep | PunctStep | AllowListStep | TrimStep
                | SpaceStep | DropEndStep | CollapseStep | LowerStep

  /** One step applied to the whole string. */
  function ApplyStep(step: Step, s: string): (r: string)
  {
    match step
    case DashStep => DashToSpace(s)
    case PunctStep => FoldPunct(s)
    case AllowListStep => RemoveFirstDisallowed(s, RegexCount)
    case TrimStep => TrimMarkers(s)
    case SpaceStep => SpaceMarkers(s)
    case DropEndStep => DropTrailingMarker(s)
    case CollapseStep => CollapseWs(s)
    case LowerStep => Lower(s)
  }

  /** The order in which gaps.py:92-100 reassigns `words`. */
  const Pipeline: seq<Step> := [DashStep, PunctStep, AllowListStep, TrimStep,
                                SpaceStep, DropEndStep, CollapseStep, LowerStep]

  /** The steps applied one after the other, the first one first. */
  function Run(steps: seq<Step>, s: string): (r: string)
    decreases |steps|
  {
    if steps == [] then s else Run(steps[1..], ApplyStep(steps[0], s))
  }

  /** The speaker-turn normalisation: the whole pipeline. */
  function Normalize(s: string): (r: string)
  {
    Run(Pipeline, s)
  }

  /** Running a non-empty list of steps is running the first, then the rest. */
  lemma RunFirst(steps: seq<Step>, s: string)
    requires steps != []
    ensures Run(steps, s) == Run(steps[1..], ApplyStep(steps[0], s))
  {
  }

  /** The pipeline written out as the composition of its eight transforms. */
  lemma NormalizeComposed(s: string)
    ensures Normalize(s) == Lower(CollapseWs(DropTrailingMarker(SpaceMarkers(TrimMarkers(
              RemoveFirstDisallowed(FoldPunct(DashToSpace(s)), RegexCount))))))
  {
    var p := Pipeline;
    var s1 := DashToSpace(s);
    var s2 := FoldPunct(s1);
    var s3 := RemoveFirstDisallowed(s2, RegexCount);
    var s4 := TrimMarkers(s3);
    var s5 := SpaceMarkers(s4);
    var s6 := DropTrailingMarker(s5);
    var s7 := CollapseWs(s6);
    RunFirst(p, s);
    assert p[1..] == [PunctStep, AllowListStep, TrimStep, SpaceStep, DropEndStep, CollapseStep, LowerStep];
    RunFirst(p[1..], s1);
    assert p[2..] == [AllowListStep, TrimStep, SpaceStep, DropEndStep, CollapseStep, LowerStep];
    RunFirst(p[2..], s2);
    assert p[3..] == [TrimStep, SpaceStep, DropEndStep, CollapseStep, LowerStep];
    RunFirst(p[3..], s3);
    assert p[4..] == [SpaceStep, DropEndStep, CollapseStep, LowerStep];
    RunFirst(p[4..], s4);
    assert p[5..] == [DropEndStep, CollapseStep, LowerStep];
    RunFirst(p[5..], s5);
    assert p[6..] == [CollapseStep, LowerStep];
    RunFirst(p[6..], s6);
    assert p[7..] == [LowerStep];
    RunFirst(p[7..], s7);
    assert p[8..] == [];
  }

  /** What every normalised transcript looks like: no dash, question or exclamation
      mark, no upper-case letter, no two whitespace characters in a row, no marker
      at the end, and a space right before every marker. */
  predicate TurnShaped(r: string)
  {
    && '-' !in r && '?' !in r && '!' !in r
    && (forall i :: 0 <= i < |r| ==> !IsUpper(r[i]))
    && NoDoubleWs(r)
    && (r == [] || r[|r| - 1] != Marker)
    && (r == [] || r[0] != Marker) && MarkersSpaced(r)
  }

  /** Trimming the markers adds no character: every character of the result occurs in the input. */
  lemma TrimMarkersWithin(s: string)
    ensures Within(TrimMarkers(s), s)
  {
    if |s| > 0 && s[0] == Marker {
      DropTrailingMarkerWithin(s[1..]);
      var r := TrimMarkers(s);
      forall i | 0 <= i < |r| ensures r[i] in s {
        var j :| 0 <= j < |s[1..]| && s[1..][j] == r[i];
        assert s[j + 1] == r[i];
      }
    } else {
      DropTrailingMarkerWithin(s);
    }
  }

  /** Spacing the markers adds nothing but spaces. */
  lemma {:induction false} SpaceMarkersDrawn(s: string)
    ensures Drawn(SpaceMarkers(s), s)
    decreases |s|
  {
    if s != [] {
      SpaceMarkersDrawn(s[1..]);
      var h := if s[0] == Marker then [' ', Marker] else [s[0]];
      var r := SpaceMarkers(s);
      forall i | 0 <= i < |r| ensures r[i] == ' ' || r[i] in s {
        if i >= |h| {
          assert r[i] == SpaceMarkers(s[1..])[i - |h|];
        }
      }
    }
  }

  /** Collapsing whitespace adds nothing but spaces. */
  lemma {:induction false} CollapseWsDrawn(s: string)
    ensures Drawn(CollapseWs(s), s)
    decreases |s|
  {
    if s == [] {
    } else if IsWs(s[0]) && |s| > 1 && IsWs(s[1]) {
      CollapseWsDrawn([' '] + s[2..]);
      var r := CollapseWs(s);
      forall i | 0 <= i < |r| ensures r[i] == ' ' || r[i] in s {
        if r[i] != ' ' {
          var j :| 0 <= j < |[' '] + s[2..]| && ([' '] + s[2..])[j] == r[i];
          assert s[j + 1] == r[i];
        }
      }
    } else {
      CollapseWsDrawn(s[1..]);
      var r := CollapseWs(s);
      forall i | 0 <= i < |r| ensures r[i] == ' ' || r[i] in s {
        if i > 0 {
          assert r[i] == CollapseWs(s[1..])[i - 1];
        }
      }
    }
  }

  /** A character that is not a space and does not occur in `s` does not occur in a
      string built from the characters of `s` and spaces. */
  lemma NotIntroduced(s: string, r: string, c: char)
    requires Drawn(r, s)
    requires c != ' ' && c !in s
    ensures c !in r
  {
  }

  /** Lower-casing changes upper-case letters only, and into lower-case letters. */
  lemma LowerAtClass(t: string, i: nat)
    requires i < |t|
    ensures Lower(t)[i] == t[i] || (IsUpper(t[i]) && 'a' <= Lower(t)[i] <= 'z')
    ensures !IsUpper(Lower(t)[i])
  {
    LowerAt(t, i);
  }

  /** Lower-casing keeps everything `TurnShaped` asks for except upper case, which it removes. */
  lemma LowerTurnShaped(t: string)
    requires '-' !in t && '?' !in t && '!' !in t
    requires NoDoubleWs(t) && MarkersSpaced(t)
    requires t == [] || (t[0] != Marker && t[|t| - 1] != Marker)
    ensures TurnShaped(Lower(t))
  {
    var r := Lower(t);
    forall i | 0 <= i < |r| ensures r[i] != '-' && r[i] != '?' && r[i] != '!' && !IsUpper(r[i]) {
      LowerAtClass(t, i);
      assert t[i] in t;
    }
    forall i | 0 <= i < |r| - 1 ensures !WsPair(r, i) {
      LowerAtClass(t, i);
      LowerAtClass(t, i + 1);
      assert !WsPair(t, i);
    }
    forall k | 0 < k < |r| ensures SpacedAt(r, k) {
      LowerAtClass(t, k - 1);
      LowerAtClass(t, k);
      assert SpacedAt(t, k);
    }
    if r != [] {
      LowerAtClass(t, 0);
      LowerAtClass(t, |t| - 1);
    }
  }

  /** The steps after the punctuation fold add no character other than a space. */
  lemma AfterFoldAvoids(s2: string, c: char)
    requires c != ' ' && c !in s2
    ensures c !in CollapseWs(DropTrailingMarker(SpaceMarkers(TrimMarkers(RemoveFirstDisallowed(s2, RegexCount)))))
  {
    var s3 := RemoveFirstDisallowed(s2, RegexCount);
    RemoveFirstDisallowedWithin(s2, RegexCount);
    NotIntroduced(s2, s3, c);
    var s4 := TrimMarkers(s3);
    TrimMarkersWithin(s3);
    NotIntroduced(s3, s4, c);
    var s5 := SpaceMarkers(s4);
    SpaceMarkersDrawn(s4);
    NotIntroduced(s4, s5, c);
    var s6 := DropTrailingMarker(s5);
    DropTrailingMarkerWithin(s5);
    NotIntroduced(s5, s6, c);
    CollapseWsDrawn(s6);
    NotIntroduced(s6, CollapseWs(s6), c);
  }

  /** The punctuation fold only writes full stops. */
  lemma {:induction false} FoldPunctAvoids(s: string, c: char)
    requires c != '.' && c !in s
    ensures c !in FoldPunct(s)
    decreases |s|
  {
    if s != [] {
      FoldPunctAvoids(s[1..], c);
    }
  }

  /** After the seven steps before lower-casing there is no dash, question mark or
      exclamation mark. */
  lemma BeforeLowerAvoids(s: string)
    ensures var t := CollapseWs(DropTrailingMarker(SpaceMarkers(TrimMarkers(
              RemoveFirstDisallowed(FoldPunct(DashToSpace(s)), RegexCount)))));
      '-' !in t && '?' !in t && '!' !in t
  {
    var s2 := FoldPunct(DashToSpace(s));
    FoldPunctAvoids(DashToSpace(s), '-');
    AfterFoldAvoids(s2, '-');
    AfterFoldAvoids(s2, '?');
    AfterFoldAvoids(s2, '!');
  }

  /** The seven steps before lower-casing already give the shape `TurnShaped` asks for,
      upper case aside. */
  lemma BeforeLowerShape(s: string)
    ensures var t := CollapseWs(DropTrailingMarker(SpaceMarkers(TrimMarkers(
              RemoveFirstDisallowed(FoldPunct(DashToSpace(s)), RegexCount)))));
      '-' !in t && '?' !in t && '!' !in t && NoDoubleWs(t) && MarkersSpaced(t)
      && (t == [] || (t[0] != Marker && t[|t| - 1] != Marker))
  {
    var s4 := TrimMarkers(RemoveFirstDisallowed(FoldPunct(DashToSpace(s)), RegexCount));
    var s5 := SpaceMarkers(s4);
    var s6 := DropTrailingMarker(s5);
    SpaceMarkersSpaced(s4);
    DropTrailingMarkerSpaced(s5);
    CollapseWsNoDouble(s6);
    CollapseWsSpaced(s6);
    BeforeLowerAvoids(s);
  }

  /** Every normalised transcript is `TurnShaped`, whatever the input. */
  lemma NormalizeShape(s: string)
    ensures TurnShaped(Normalize(s))
  {
    NormalizeComposed(s);
    BeforeLowerShape(s);
    LowerTurnShaped(CollapseWs(DropTrailingMarker(SpaceMarkers(TrimMarkers(
      RemoveFirstDisallowed(FoldPunct(DashToSpace(s)), RegexCount))))));
  }

  /** A normalised transcript in which no disallowed character survived. */
  predicate NormalForm(x: string)
  {
    && (forall i :: 0 <= i < |x| ==> IsAllowed(x[i]) && !IsUpper(x[i]))
    && NoDoubleWs(x) && MarkersSpaced(x)
    && (x == [] || (x[0] != Marker && x[|x| - 1] != Marker))
  }

  /** Only allowed characters and spaces give only allowed characters. */
  lemma AllowedKept(s: string, r: string)
    requires Drawn(r, s)
    requires forall i :: 0 <= i < |s| ==> IsAllowed(s[i])
    ensures forall i :: 0 <= i < |r| ==> IsAllowed(r[i])
  {
  }

  /** Lower-casing keeps a string of allowed characters allowed. */
  lemma LowerAllowed(t: string)
    requires forall i :: 0 <= i < |t| ==> IsAllowed(t[i])
    ensures forall i :: 0 <= i < |t| ==> IsAllowed(Lower(t)[i])
  {
    forall i | 0 <= i < |t| ensures IsAllowed(Lower(t)[i]) {
      LowerAtClass(t, i);
    }
  }

  /** When the allow-list step had at most 32 characters to delete, the steps after it
      add nothing outside the allow-list. */
  lemma AllowedBeforeLower(s: string)
    requires DisallowedCount(FoldPunct(DashToSpace(s))) <= RegexCount
    ensures var t := CollapseWs(DropTrailingMarker(SpaceMarkers(TrimMarkers(
              RemoveFirstDisallowed(FoldPunct(DashToSpace(s)), RegexCount)))));
      forall i :: 0 <= i < |t| ==> IsAllowed(t[i])
  {
    var s3 := RemoveFirstDisallowed(FoldPunct(DashToSpace(s)), RegexCount);
    var s4 := TrimMarkers(s3);
    TrimMarkersWithin(s3);
    AllowedKept(s3, s4);
    var s5 := SpaceMarkers(s4);
    SpaceMarkersDrawn(s4);
    AllowedKept(s4, s5);
    var s6 := DropTrailingMarker(s5);
    DropTrailingMarkerWithin(s5);
    AllowedKept(s5, s6);
    CollapseWsDrawn(s6);
    AllowedKept(s6, CollapseWs(s6));
  }

  /** When the allow-list step had at most 32 characters to delete, the result is in
      normal form. */
  lemma NormalizeNormalForm(s: string)
    requires DisallowedCount(FoldPunct(DashToSpace(s))) <= RegexCount
    ensures NormalForm(Normalize(s))
  {
    var t := CollapseWs(DropTrailingMarker(SpaceMarkers(TrimMarkers(
               RemoveFirstDisallowed(FoldPunct(DashToSpace(s)), RegexCount)))));
    NormalizeComposed(s);
    AllowedBeforeLower(s);
    BeforeLowerShape(s);
    LowerTurnShaped(t);
    LowerAllowed(t);
  }

  /** A string without disallowed characters has none to count. */
  lemma {:induction false} AllowedCountZero(s: string)
    requires forall i :: 0 <= i < |s| ==> IsAllowed(s[i])
    ensures DisallowedCount(s) == 0
    decreases |s|
  {
    if s != [] {
      AllowedCountZero(s[1..]);
    }
  }

  /** The collapse keeps a character that does not start a run of two whitespace characters. */
  lemma CollapseKeepsFirst(c: char, t: string)
    requires !IsWs(c) || t == [] || !IsWs(t[0])
    ensures CollapseWs([c] + t) == [c] + CollapseWs(t)
  {
    assert ([c] + t)[1..] == t;
  }

  /** A run of two or more whitespace characters, ended by the end of the string or by a
      character that is not whitespace, becomes exactly one space. */
  lemma {:induction false} CollapseRun(w: string, t: string)
    requires |w| >= 2 && forall i :: 0 <= i < |w| ==> IsWs(w[i])
    requires t == [] || !IsWs(t[0])
    ensures CollapseWs(w + t) == [' '] + CollapseWs(t)
    decreases |w|
  {
    var u := [' '] + w[2..];
    assert (w + t)[2..] == w[2..] + t;
    assert [' '] + (w[2..] + t) == u + t;
    if |w| == 2 {
      CollapseKeepsFirst(' ', t);
    } else {
      CollapseRun(u, t);
    }
  }

  /** The collapse turns the two spaces written before a marker back into one. */
  lemma CollapseSpacedMarker(t: string)
    ensures CollapseWs([' ', ' ', Marker] + t) == [' ', Marker] + CollapseWs(t)
  {
    assert ([' ', ' ', Marker] + t)[2..] == [Marker] + t;
    assert [' '] + ([Marker] + t) == [' ', Marker] + t;
    CollapseKeepsFirst(' ', [Marker] + t);
    CollapseKeepsFirst(Marker, t);
  }

  /** The insertion on a first character and the rest. */
  lemma SpaceMarkersCons(c: char, t: string)
    ensures SpaceMarkers([c] + t) == (if c == Marker then [' ', Marker] else [c]) + SpaceMarkers(t)
  {
    assert ([c] + t)[1..] == t;
  }

  /** A space followed by a marker gets a second space. */
  lemma SpaceMarkersAfterSpace(x: string)
    requires |x| > 1 && x[0] == ' ' && x[1] == Marker
    ensures SpaceMarkers(x) == [' ', ' ', Marker] + SpaceMarkers(x[2..])
  {
    assert x == [' '] + ([Marker] + x[2..]);
    SpaceMarkersCons(' ', [Marker] + x[2..]);
    SpaceMarkersCons(Marker, x[2..]);
  }

  /** The four conditions of `CollapseUndoesSpacing`: whitespace is only spaces, no two are
      adjacent, every marker has a space before it, and none is in first position. */
  predicate SpacedNoDouble(x: string)
  {
    (forall i :: 0 <= i < |x| ==> IsWs(x[i]) ==> x[i] == ' ')
    && NoDoubleWs(x) && MarkersSpaced(x) && (x == [] || x[0] != Marker)
  }

  /** The conditions carry over to a suffix that does not start with a marker. */
  lemma SpacedNoDoubleSuffix(x: string, d: nat)
    requires SpacedNoDouble(x) && d <= |x|
    requires d == |x| || x[d] != Marker
    ensures SpacedNoDouble(x[d..])
  {
    var u := x[d..];
    forall i | 0 <= i < |u| - 1 ensures !WsPair(u, i) {
      assert !WsPair(x, i + d);
    }
    forall k | 0 < k < |u| ensures SpacedAt(u, k) {
      assert SpacedAt(x, k + d);
    }
  }

  /** One step of `CollapseUndoesSpacing`: a space followed by a marker. */
  lemma UndoSpacingMarker(x: string)
    requires |x| > 1 && x[0] == ' ' && x[1] == Marker
    requires CollapseWs(SpaceMarkers(x[2..])) == x[2..]
    ensures CollapseWs(SpaceMarkers(x)) == x
  {
    SpaceMarkersAfterSpace(x);
    CollapseSpacedMarker(SpaceMarkers(x[2..]));
    assert x == [' ', Marker] + x[2..];
  }

  /** One step of `CollapseUndoesSpacing`: a character that keeps its place. */
  lemma UndoSpacingChar(x: string)
    requires |x| > 1 && x[0] != Marker && x[1] != Marker
    requires !IsWs(x[0]) || !IsWs(x[1])
    requires CollapseWs(SpaceMarkers(x[1..])) == x[1..]
    ensures CollapseWs(SpaceMarkers(x)) == x
  {
    var t := x[1..];
    assert SpaceMarkers(x) == [x[0]] + SpaceMarkers(t);
    CollapseKeepsFirst(x[0], SpaceMarkers(t));
    assert x == [x[0]] + t;
  }

  /** Inserting spaces before markers and then collapsing whitespace runs gives back a
      string whose only whitespace is single spaces and whose markers are spaced. */
  lemma {:induction false} CollapseUndoesSpacing(x: string)
    requires SpacedNoDouble(x)
    ensures CollapseWs(SpaceMarkers(x)) == x
    decreases |x|
  {
    if x == [] {
    } else if |x| == 1 {
      assert SpaceMarkers(x) == x;
    } else if x[0] == ' ' && x[1] == Marker {
      if |x| > 2 {
        assert SpacedAt(x, 2);
      }
      SpacedNoDoubleSuffix(x, 2);
      CollapseUndoesSpacing(x[2..]);
      UndoSpacingMarker(x);
    } else {
      assert SpacedAt(x, 1);
      assert !WsPair(x, 0);
      SpacedNoDoubleSuffix(x, 1);
      CollapseUndoesSpacing(x[1..]);
      UndoSpacingChar(x);
    }
  }

  /** Without dashes there is nothing to replace. */
  lemma {:induction false} DashToSpaceNoDash(x: string)
    requires '-' !in x
    ensures DashToSpace(x) == x
    decreases |x|
  {
    if x != [] {
      DashToSpaceNoDash(x[1..]);
      assert x == [x[0]] + x[1..];
    }
  }

  /** Without question or exclamation marks there is nothing to fold. */
  lemma {:induction false} FoldPunctNoPunct(x: string)
    requires '?' !in x && '!' !in x
    ensures FoldPunct(x) == x
    decreases |x|
  {
    if x != [] {
      FoldPunctNoPunct(x[1..]);
      assert x == [x[0]] + x[1..];
    }
  }

  /** Without upper-case letters there is nothing to lower. */
  lemma {:induction false} LowerNoUpper(x: string)
    requires forall i :: 0 <= i < |x| ==> !IsUpper(x[i])
    ensures Lower(x) == x
    decreases |x|
  {
    if x != [] {
      LowerNoUpper(x[1..]);
      assert x == [x[0]] + x[1..];
    }
  }

  /** The dash, punctuation and allow-list steps leave allowed characters alone. */
  lemma CharStepsFixed(x: string)
    requires forall i :: 0 <= i < |x| ==> IsAllowed(x[i])
    ensures RemoveFirstDisallowed(FoldPunct(DashToSpace(x)), RegexCount) == x
  {
    assert '-' !in x && '?' !in x && '!' !in x;
    DashToSpaceNoDash(x);
    FoldPunctNoPunct(x);
    AllowedCountZero(x);
  }

  /** The four marker and whitespace steps leave a string in normal form alone. */
  lemma MarkerStepsFixed(x: string)
    requires NormalForm(x)
    ensures CollapseWs(DropTrailingMarker(SpaceMarkers(TrimMarkers(x)))) == x
  {
    if x != [] {
      assert !IsAllowed('\n') && IsAllowed(x[|x| - 1]);
      assert EndMarkerAt(x) < 0;
    }
    assert TrimMarkers(x) == x;
    var y := SpaceMarkers(x);
    if y != [] {
      assert y[|y| - 1] == x[|x| - 1];
      assert EndMarkerAt(y) < 0;
    }
    assert DropTrailingMarker(y) == y;
    forall i | 0 <= i < |x| && IsWs(x[i]) ensures x[i] == ' ' {
      assert IsAllowed(x[i]);
    }
    CollapseUndoesSpacing(x);
  }

  /** The pipeline leaves a string in normal form unchanged. */
  lemma NormalFormFixed(x: string)
    requires NormalForm(x)
    ensures Normalize(x) == x
  {
    NormalizeComposed(x);
    CharStepsFixed(x);
    MarkerStepsFixed(x);
    LowerNoUpper(x);
  }

  /** Normalising twice is normalising once, as long as the allow-list step of the first
      pass had at most 32 characters to delete. */
  lemma NormalizeIdempotent(s: string)
    requires DisallowedCount(FoldPunct(DashToSpace(s))) <= RegexCount
    ensures Normalize(Normalize(s)) == Normalize(s)
  {
    NormalizeNormalForm(s);
    NormalFormFixed(Normalize(s));
  }

  /** With a count of zero nothing is deleted. */
  lemma {:induction false} RemoveNoneDisallowed(s: string)
    ensures RemoveFirstDisallowed(s, 0) == s
    decreases |s|
  {
    if s != [] {
      RemoveNoneDisallowed(s[1..]);
    }
  }

  /** With only disallowed characters, the allow-list step deletes exactly the first `n`. */
  lemma {:induction false} RemoveAllDisallowed(s: string, n: nat)
    requires n <= |s|
    requires forall i :: 0 <= i < |s| ==> !IsAllowed(s[i])
    ensures RemoveFirstDisallowed(s, n) == s[n..]
    decreases n
  {
    if n == 0 {
      RemoveNoneDisallowed(s);
    } else {
      RemoveAllDisallowed(s[1..], n - 1);
      assert s[1..][n - 1..] == s[n..];
    }
  }

  /** A character the pipeline deletes outright: outside the allow-list and not one
      the dash or punctuation step would replace first. */
  predicate Dropped(c: char)
  {
    !IsAllowed(c) && c != '-' && c != '?' && c != '!'
  }

  /** A single dropped character normalises to the empty string. */
  lemma NormalizeDropped(c: char)
    requires Dropped(c)
    ensures Normalize([c]) == ""
  {
    NormalizeComposed([c]);
    DashToSpaceNoDash([c]);
    FoldPunctNoPunct([c]);
    assert RemoveFirstDisallowed([c], RegexCount) == RemoveFirstDisallowed([], RegexCount - 1);
  }

  /** Of 33 dropped characters the first three steps keep only the last. */
  lemma CharStepsDropped33(s: string)
    requires |s| == RegexCount + 1 && forall i :: 0 <= i < |s| ==> Dropped(s[i])
    ensures RemoveFirstDisallowed(FoldPunct(DashToSpace(s)), RegexCount) == [s[RegexCount]]
  {
    assert '-' !in s && '?' !in s && '!' !in s;
    DashToSpaceNoDash(s);
    FoldPunctNoPunct(s);
    RemoveAllDisallowed(s, RegexCount);
    assert s[RegexCount..] == [s[RegexCount]];
  }

  /** The marker, whitespace and case steps leave a single dropped character alone. */
  lemma MarkerStepsDropped(c: char)
    requires Dropped(c)
    ensures Lower(CollapseWs(DropTrailingMarker(SpaceMarkers(TrimMarkers([c]))))) == [c]
  {
    assert TrimMarkers([c]) == [c];
    assert SpaceMarkers([c]) == [c] + SpaceMarkers([]);
    assert DropTrailingMarker([c]) == [c];
    assert CollapseWs([c]) == [c] + CollapseWs([]);
    LowerNoUpper([c]);
  }

  /** Of 33 dropped characters the allow-list step deletes only 32: the last one is
      what the pipeline leaves. */
  lemma NormalizeDropped33(s: string)
    requires |s| == RegexCount + 1 && forall i :: 0 <= i < |s| ==> Dropped(s[i])
    ensures Normalize(s) == [s[RegexCount]]
  {
    NormalizeComposed(s);
    CharStepsDropped33(s);
    MarkerStepsDropped(s[RegexCount]);
  }

  /** Without the limit of 32 deletions the pipeline would be idempotent; with it, it is
      not: 33 characters such as `#` normalise to the last of them, which then
      normalises to the empty string. */
  lemma CountLimitBreaksIdempotence(s: string)
    requires |s| == RegexCount + 1 && forall i :: 0 <= i < |s| ==> Dropped(s[i])
    ensures Normalize(s) == [s[RegexCount]] && Normalize(Normalize(s)) == ""
  {
    NormalizeDropped33(s);
    NormalizeDropped(s[RegexCount]);
  }

  /** The instance of `CountLimitBreaksIdempotence` with 33 `#` characters. */
  lemma HashesNotIdempotent()
    ensures var s := seq(33, _ => '#');
      Normalize(s) == "#" && Normalize(Normalize(s)) == ""
  {
    CountLimitBreaksIdempotence(seq(33, _ => '#'));
  }

  /** The insertion works piece by piece. */
  lemma {:induction false} SpaceMarkersConcat(a: string, b: string)
    ensures SpaceMarkers(a + b) == SpaceMarkers(a) + SpaceMarkers(b)
    decreases |a|
  {
    if a != [] {
      SpaceMarkersConcat(a[1..], b);
      var h: string := if a[0] == Marker then [' ', Marker] else [a[0]];
      assert (a + b)[0] == a[0];
      assert (a + b)[1..] == a[1..] + b;
      assert SpaceMarkers(a + b) == h + SpaceMarkers(a[1..] + b);
      assert SpaceMarkers(a) == h + SpaceMarkers(a[1..]);
    } else {
      assert a + b == b;
    }
  }

  /** Without markers there is nothing to insert. */
  lemma {:induction false} SpaceMarkersNoMarker(a: string)
    requires Marker !in a
    ensures SpaceMarkers(a) == a
    decreases |a|
  {
    if a != [] {
      SpaceMarkersNoMarker(a[1..]);
      assert a == [a[0]] + a[1..];
    }
  }

  /** One marker between two marker-free pieces gets one space before it. */
  lemma SpaceMarkersOneMarker(a: string, b: string)
    requires Marker !in a && Marker !in b
    ensures SpaceMarkers(a + [Marker] + b) == a + [' ', Marker] + b
  {
    SpaceMarkersNoMarker(a);
    SpaceMarkersNoMarker(b);
    SpaceMarkersCons(Marker, b);
    SpaceMarkersConcat(a, [Marker] + b);
    assert a + [Marker] + b == a + ([Marker] + b);
  }

  /** Without two whitespace characters in a row there is nothing to collapse. */
  lemma {:induction false} CollapseNoDouble(s: string)
    requires NoDoubleWs(s)
    ensures CollapseWs(s) == s
    decreases |s|
  {
    if s != [] {
      if |s| > 1 {
        assert !WsPair(s, 0);
      }
      var t := s[1..];
      forall i | 0 <= i < |t| - 1 ensures !WsPair(t, i) {
        assert !WsPair(s, i + 1);
      }
      CollapseNoDouble(t);
      assert s == [s[0]] + t;
    }
  }

  /** The first three steps on `hello¶How are you?`. */
  lemma ExampleCharSteps()
    ensures RemoveFirstDisallowed(FoldPunct(DashToSpace("hello" + [Marker] + "How are you?")), RegexCount)
            == "hello" + [Marker] + "How are you."
  {
    var s := "hello" + [Marker] + "How are you?";
    var s2 := "hello" + [Marker] + "How are you.";
    forall i | 0 <= i < |s| ensures DashToSpace(s)[i] == s[i] && FoldPunct(s)[i] == s2[i] {
      DashToSpaceAt(s, i);
      FoldPunctAt(s, i);
    }
    assert DashToSpace(s) == s;
    assert FoldPunct(s) == s2;
    AllowedCountZero(s2);
  }

  /** No marker to trim at either end of `hello¶How are you.`. */
  lemma ExampleTrim()
    ensures TrimMarkers("hello" + [Marker] + "How are you.") == "hello" + [Marker] + "How are you."
  {
  }

  /** Nothing to drop or collapse in `hello ¶How are you.`. */
  lemma ExampleCollapse()
    ensures CollapseWs(DropTrailingMarker("hello" + [' ', Marker] + "How are you."))
            == "hello" + [' ', Marker] + "How are you."
  {
    var s5 := "hello" + [' ', Marker] + "How are you.";
    assert DropTrailingMarker(s5) == s5;
    CollapseNoDouble(s5);
  }

  /** The marker and whitespace steps on `hello¶How are you.`. */
  lemma ExampleMarkerSteps()
    ensures CollapseWs(DropTrailingMarker(SpaceMarkers(TrimMarkers("hello" + [Marker] + "How are you."))))
            == "hello" + [' ', Marker] + "How are you."
  {
    ExampleTrim();
    SpaceMarkersOneMarker("hello", "How are you.");
    ExampleCollapse();
  }

  /** Lower-casing `hello ¶How are you.`. */
  lemma ExampleLower()
    ensures Lower("hello" + [' ', Marker] + "How are you.") == "hello" + [' ', Marker] + "how are you."
  {
    var s := "hello" + [' ', Marker] + "How are you.";
    var r := "hello" + [' ', Marker] + "how are you.";
    forall i | 0 <= i < |s| ensures Lower(s)[i] == r[i] {
      LowerAt(s, i);
    }
  }

  /** A marker glued to the next word gets a space before it but none after it:
      `hello¶How are you?` becomes `hello ¶how are you.`. */
  lemma ExampleGluedMarker()
    ensures Normalize("hello" + [Marker] + "How are you?") == "hello" + [' ', Marker] + "how are you."
  {
    NormalizeComposed("hello" + [Marker] + "How are you?");
    ExampleCharSteps();
    ExampleMarkerSteps();
    ExampleLower();
  }
}
