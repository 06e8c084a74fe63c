/** The string primitives the transcripts are built from: `" ".join(...)` and
    `.strip()` on the byte strings of gaps.py. */
module Text {

  /** ASCII whitespace: what `str.strip()` removes and what the regex class `\s`
      matches on a byte string. */
  predicate IsWs(c: char)
  {
    c == ' ' || c == '\t' || c == '\n' || c == '\r' || c == '\U{0B}' || c == '\U{0C}'
  }

  /** `" ".join(parts)`. */
  function Join(parts: seq<string>): (s: string)
    decreases |parts|
  {
    if |parts| == 0 then ""
    else if |parts| == 1 then parts[0]
    else parts[0] + " " + Join(parts[1..])
  }

  /** `s.split(" ")`: the pieces between single spaces, empty pieces included. */
  function Split(s: string): (parts: seq<string>)
    ensures |parts| >= 1
    decreases |s|
  {
    if s == [] then [[]]
    else
      var rest := Split(s[1..]);
      if s[0] == ' ' then [[]] + rest else [[s[0]] + rest[0]] + rest[1..]
  }

  /** Joining the pieces of a split gives back the string. */
  lemma {:induction false} JoinSplit(s: string)
    ensures Join(Split(s)) == s
    decreases |s|
  {
    if s != [] {
      JoinSplit(s[1..]);
      var rest := Split(s[1..]);
      if s[0] != ' ' && |rest| > 1 {
        assert Join(rest) == rest[0] + " " + Join(rest[1..]);
        assert [s[0]] + rest[0] + " " + Join(rest[1..]) == [s[0]] + Join(rest);
      }
      assert s == [s[0]] + s[1..];
    }
  }

  /** A piece without spaces, followed by a space, splits off as one piece. */
  lemma {:induction false} SplitPrefix(p: string, t: string)
    requires ' ' !in p
    ensures Split(p + " " + t) == [p] + Split(t)
    ensures Split(p) == [p]
    decreases |p|
  {
    if p == [] {
      assert p + " " + t == [' '] + t;
      assert ([' '] + t)[1..] == t;
    } else {
      SplitPrefix(p[1..], t);
      assert (p + " " + t)[1..] == p[1..] + " " + t;
      assert [p[0]] + p[1..] == p;
    }
  }

  /** Splitting a join of space-free words gives back the words. */
  lemma {:induction false} SplitJoin(parts: seq<string>)
    requires |parts| > 0
    requires forall k :: 0 <= k < |parts| ==> ' ' !in parts[k]
    ensures Split(Join(parts)) == parts
    decreases |parts|
  {
    SplitPrefix(parts[0], []);
    if |parts| > 1 {
      SplitJoin(parts[1..]);
      SplitPrefix(parts[0], Join(parts[1..]));
      assert [parts[0]] + parts[1..] == parts;
    }
  }

  /** A join of non-empty pieces starts with the first piece's first character and ends
      with the last piece's last character. */
  lemma {:induction false} JoinEnds(parts: seq<string>)
    requires |parts| > 0
    requires forall k :: 0 <= k < |parts| ==> parts[k] != []
    ensures var s, last := Join(parts), parts[|parts| - 1];
      s != [] && s[0] == parts[0][0] && s[|s| - 1] == last[|last| - 1]
    decreases |parts|
  {
    if |parts| > 1 {
      JoinEnds(parts[1..]);
      assert parts[1..][|parts| - 2] == parts[|parts| - 1];
    }
  }

  /** `s.lstrip()`: the suffix left after dropping the leading whitespace. */
  function StripLeft(s: string): (r: string)
    ensures |r| <= |s| && r == s[|s| - |r|..]
    ensures r == [] || !IsWs(r[0])
    decreases |s|
  {
    if s != [] && IsWs(s[0]) then StripLeft(s[1..]) else s
  }

  /** What `s.lstrip()` drops is whitespace. */
  lemma {:induction false} StripLeftDropsWs(s: string)
    ensures forall i :: 0 <= i < |s| - |StripLeft(s)| ==> IsWs(s[i])
    decreases |s|
  {
    if s != [] && IsWs(s[0]) {
      StripLeftDropsWs(s[1..]);
      forall i | 1 <= i < |s| - |StripLeft(s)| ensures IsWs(s[i]) {
        assert s[i] == s[1..][i - 1];
      }
    }
  }

  /** `s.rstrip()`: the prefix left after dropping the trailing whitespace. */
  function StripRight(s: string): (r: string)
    ensures |r| <= |s| && r == s[..|r|]
    ensures r == [] || !IsWs(r[|r| - 1])
    decreases |s|
  {
    if s != [] && IsWs(s[|s| - 1]) then StripRight(s[..|s| - 1]) else s
  }

  /** What `s.rstrip()` drops is whitespace. */
  lemma {:induction false} StripRightDropsWs(s: string)
    ensures forall i :: |StripRight(s)| <= i < |s| ==> IsWs(s[i])
    decreases |s|
  {
    if s != [] && IsWs(s[|s| - 1]) {
      StripRightDropsWs(s[..|s| - 1]);
      forall i | |StripRight(s)| <= i < |s| - 1 ensures IsWs(s[i]) {
        assert s[i] == s[..|s| - 1][i];
      }
    }
  }

  /** `s.strip()`: both ends stripped. */
  function Strip(s: string): (r: string)
    ensures |r| <= |s|
    ensures r == [] || (!IsWs(r[0]) && !IsWs(r[|r| - 1]))
  {
    StripRight(StripLeft(s))
  }

  /** `s.strip()` is the middle part `s[a..b]` of `s`, with only whitespace outside it. */
  lemma StripMiddle(s: string)
    ensures exists a, b :: 0 <= a <= b <= |s| && Strip(s) == s[a..b]
              && (forall i :: 0 <= i < a ==> IsWs(s[i]))
              && (forall i :: b <= i < |s| ==> IsWs(s[i]))
  {
    var l := StripLeft(s);
    var r := StripRight(l);
    var a := |s| - |l|;
    StripLeftDropsWs(s);
    StripRightDropsWs(l);
    assert r == s[a..a + |r|];
    forall i | a + |r| <= i < |s| ensures IsWs(s[i]) {
      assert s[i] == l[i - a];
    }
  }

  /** A word of a transcript: non-empty, with no whitespace in it. */
  predicate IsToken(w: string)
  {
    w != [] && forall i :: 0 <= i < |w| ==> !IsWs(w[i])
  }

  /** A string with no whitespace at either end is its own strip. */
  lemma StripNoWsEnds(s: string)
    requires s == [] || (!IsWs(s[0]) && !IsWs(s[|s| - 1]))
    ensures Strip(s) == s
  {
  }

  /** Splitting the stripped join of tokens gives back the tokens. */
  lemma SplitStripJoin(parts: seq<string>)
    requires |parts| > 0
    requires forall k :: 0 <= k < |parts| ==> IsToken(parts[k])
    ensures Split(Strip(Join(parts))) == parts
  {
    var last := parts[|parts| - 1];
    JoinEnds(parts);
    assert !IsWs(parts[0][0]) && !IsWs(last[|last| - 1]);
    StripNoWsEnds(Join(parts));
    forall k | 0 <= k < |parts| ensures ' ' !in parts[k] {
      assert IsWs(' ');
    }
    SplitJoin(parts);
  }
}
