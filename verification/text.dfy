/**
 * Python string operations the import and reply-parsing code relies on:
 * `str.isspace`, `in`, `str.split(sep)`, `str.split()`, `str.strip()` and
 * `str.endswith`, over strings as sequences of code points.
 */
module Text {
  import opened Wrappers

  /** Python's `str.isspace()` for one code point. */
  predicate IsSpace(c: char)
  {
    || c == ' '
    || ('\t' <= c <= '\r')
    || ('\U{1c}' <= c <= '\U{1f}')
    || c == '\U{85}' || c == '\U{a0}' || c == '\U{1680}'
    || ('\U{2000}' <= c <= '\U{200a}')
    || c == '\U{2028}' || c == '\U{2029}' || c == '\U{202f}' || c == '\U{205f}' || c == '\U{3000}'
  }

  predicate AllSpace(s: string)
  {
    forall i :: 0 <= i < |s| ==> IsSpace(s[i])
  }

  predicate NoSpace(s: string)
  {
    forall i :: 0 <= i < |s| ==> !IsSpace(s[i])
  }

  /** `pat` occurs in `s` starting at position `i`. */
  predicate OccursAt(s: string, pat: string, i: int)
  {
    0 <= i && i + |pat| <= |s| && s[i..i + |pat|] == pat
  }

  /** Python's `pat in s`. */
  predicate Contains(s: string, pat: string)
  {
    exists i :: 0 <= i <= |s| - |pat| && OccursAt(s, pat, i)
  }

  /** Python's `s.endswith(suffix)`. */
  predicate HasSuffix(s: string, suffix: string)
  {
    |suffix| <= |s| && s[|s| - |suffix|..] == suffix
  }

  /** Python's `s.find(pat)`, with `None` for -1. */
  function IndexOf(s: string, pat: string): (r: Option<nat>)
    ensures r.Some? ==> OccursAt(s, pat, r.value)
    ensures r.Some? ==> forall j :: 0 <= j < r.value ==> !OccursAt(s, pat, j)
    ensures r.None? <==> !Contains(s, pat)
    decreases |s|
  {
    if |s| < |pat| then None
    else if s[..|pat|] == pat then Some(0)
    else
      var r := IndexOf(s[1..], pat);
      assert forall j :: 1 <= j ==> (OccursAt(s, pat, j) <==> OccursAt(s[1..], pat, j - 1)) by {
        forall j | 1 <= j ensures OccursAt(s, pat, j) <==> OccursAt(s[1..], pat, j - 1) {
          if j + |pat| <= |s| {
            SliceOfSlice(s, 1, |s|, j - 1, j - 1 + |pat|);
          }
        }
      }
      if r.None? then None else Some(r.value + 1)
  }

  lemma SliceOfSlice(s: string, a: int, b: int, i: int, j: int)
    requires 0 <= a <= b <= |s| && 0 <= i <= j <= b - a
    ensures s[a..b][i..j] == s[a + i..a + j]
  {
    assert forall k :: 0 <= k < j - i ==> s[a..b][i..j][k] == s[a + i + k];
  }

  /** A piece lying before the first occurrence of `pat` does not contain it. */
  lemma PrefixBeforeFirst(s: string, pat: string, i: nat)
    requires i <= |s| && |pat| > 0
    requires forall j :: 0 <= j < i ==> !OccursAt(s, pat, j)
    ensures !Contains(s[..i], pat)
  {
    forall j | 0 <= j <= i - |pat| ensures !OccursAt(s[..i], pat, j) {
      OccursInSlice(s, pat, 0, i, j);
    }
  }

  /** An occurrence inside a slice is an occurrence in the whole string. */
  lemma OccursInSlice(s: string, pat: string, a: int, b: int, j: int)
    requires 0 <= a <= b <= |s| && 0 <= j
    ensures OccursAt(s[a..b], pat, j) ==> OccursAt(s, pat, a + j)
  {
    if OccursAt(s[a..b], pat, j) {
      SliceOfSlice(s, a, b, j, j + |pat|);
    }
  }

  /** Python's `s.split(sep)` for a non-empty separator. */
  function Split(s: string, sep: string): (parts: seq<string>)
    requires |sep| > 0
    ensures |parts| >= 1
    ensures forall i :: 0 <= i < |parts| ==> !Contains(parts[i], sep)
    ensures Contains(s, sep) <==> |parts| >= 2
    ensures !Contains(s, sep) ==> parts == [s]
    decreases |s|
  {
    match IndexOf(s, sep)
    case None => [s]
    case Some(i) =>
      PrefixBeforeFirst(s, sep, i);
      [s[..i]] + Split(s[i + |sep|..], sep)
  }

  /** Python's `sep.join(parts)`. */
  function Join(parts: seq<string>, sep: string): string
    decreases |parts|
  {
    if |parts| == 0 then ""
    else if |parts| == 1 then parts[0]
    else parts[0] + sep + Join(parts[1..], sep)
  }

  /** Splitting and joining with the same separator gives back the original string. */
  lemma {:induction false} JoinSplit(s: string, sep: string)
    requires |sep| > 0
    ensures Join(Split(s, sep), sep) == s
    decreases |s|
  {
    if IndexOf(s, sep).Some? {
      var i := IndexOf(s, sep).value;
      var tail := s[i + |sep|..];
      JoinSplit(tail, sep);
      SplitAtFirst(s, sep, i);
      JoinCons(s[..i], Split(tail, sep), sep);
    }
  }

  /** A split at the first separator: the piece before it, then the split of what follows. */
  lemma SplitAtFirst(s: string, sep: string, i: nat)
    requires |sep| > 0 && IndexOf(s, sep) == Some(i)
    ensures Split(s, sep) == [s[..i]] + Split(s[i + |sep|..], sep)
    ensures s == s[..i] + sep + s[i + |sep|..]
  {
    assert s[i..i + |sep|] == sep;
    assert s == s[..i] + s[i..i + |sep|] + s[i + |sep|..];
  }

  lemma JoinCons(p: string, rest: seq<string>, sep: string)
    requires |rest| >= 1
    ensures Join([p] + rest, sep) == p + sep + Join(rest, sep)
  {
    assert ([p] + rest)[1..] == rest;
  }

  /** The first piece of a split is the text up to the first separator. */
  lemma SplitHead(s: string, sep: string)
    requires |sep| > 0
    ensures IndexOf(s, sep).Some? ==> Split(s, sep)[0] == s[..IndexOf(s, sep).value]
    ensures IndexOf(s, sep).None? ==> Split(s, sep)[0] == s
  {
    if IndexOf(s, sep).Some? {
      SplitAtFirst(s, sep, IndexOf(s, sep).value);
    }
  }

  /** The second piece of a split is the text between the first and second separators. */
  lemma SplitSecond(s: string, sep: string)
    requires |sep| > 0 && Contains(s, sep)
    ensures var i := IndexOf(s, sep).value;
      Split(s, sep)[1] == Split(s[i + |sep|..], sep)[0]
  {
    SplitAtFirst(s, sep, IndexOf(s, sep).value);
  }

  /** Python's `s.lstrip()`. */
  function StripLeft(s: string): (r: string)
    ensures |r| <= |s| && r == s[|s| - |r|..]
    ensures AllSpace(s[..|s| - |r|])
    ensures |r| > 0 ==> !IsSpace(r[0])
    decreases |s|
  {
    if |s| > 0 && IsSpace(s[0]) then StripLeft(s[1..]) else s
  }

  /** Python's `s.rstrip()`. */
  function StripRight(s: string): (r: string)
    ensures |r| <= |s| && r == s[..|r|]
    ensures AllSpace(s[|r|..])
    ensures |r| > 0 ==> !IsSpace(r[|r| - 1])
    decreases |s|
  {
    if |s| > 0 && IsSpace(s[|s| - 1]) then StripRight(s[..|s| - 1]) else s
  }

  /**
   * Python's `s.strip()`: the slice of `s` left after removing whitespace from
   * both ends; it neither starts nor ends with whitespace.
   */
  function Strip(s: string): (r: string)
    ensures exists a, b :: 0 <= a <= b <= |s| && r == s[a..b] && AllSpace(s[..a]) && AllSpace(s[b..])
    ensures |r| > 0 ==> !IsSpace(r[0]) && !IsSpace(r[|r| - 1])
    ensures AllSpace(s) <==> |r| == 0
  {
    StripBothEnds(s);
    StripRight(StripLeft(s))
  }

  lemma StripBothEnds(s: string)
    ensures var r := StripRight(StripLeft(s));
      && (exists a, b :: 0 <= a <= b <= |s| && r == s[a..b] && AllSpace(s[..a]) && AllSpace(s[b..]))
      && (AllSpace(s) <==> |r| == 0)
  {
    var left := StripLeft(s);
    var r := StripRight(left);
    var a := |s| - |left|;
    var b := a + |r|;
    assert r == s[a..b];
    assert s[b..] == left[|r|..];
    assert |left| > 0 ==> left[0] == s[a];
    if |r| == 0 {
      assert left[|r|..] == left;
      assert |left| == 0;
      assert s[..a] == s;
    }
  }

  /** A slice of a string without `pat` has no occurrence of `pat` either. */
  lemma SliceKeepsAbsence(s: string, pat: string, a: int, b: int)
    requires 0 <= a <= b <= |s| && !Contains(s, pat)
    ensures !Contains(s[a..b], pat)
  {
    forall j | 0 <= j <= (b - a) - |pat| ensures !OccursAt(s[a..b], pat, j) {
      OccursInSlice(s, pat, a, b, j);
    }
  }

  /** Strip removes nothing but whitespace, so it cannot create an occurrence. */
  lemma StripKeepsAbsence(s: string, pat: string)
    requires !Contains(s, pat)
    ensures !Contains(Strip(s), pat)
  {
    var a, b :| 0 <= a <= b <= |s| && Strip(s) == s[a..b];
    SliceKeepsAbsence(s, pat, a, b);
  }

  /** The longest whitespace-free prefix of `s`. */
  function WordPrefix(s: string): (w: string)
    ensures |w| <= |s| && w == s[..|w|]
    ensures NoSpace(w)
    ensures |w| < |s| ==> IsSpace(s[|w|])
    decreases |s|
  {
    if |s| == 0 || IsSpace(s[0]) then ""
    else [s[0]] + WordPrefix(s[1..])
  }

  /** Python's `s.split()`: the maximal whitespace-free runs of `s`, in order. */
  function SplitWhitespace(s: string): (r: seq<string>)
    ensures forall i :: 0 <= i < |r| ==> |r[i]| > 0 && NoSpace(r[i])
    decreases |s|
  {
    if |s| == 0 then []
    else if IsSpace(s[0]) then SplitWhitespace(s[1..])
    else
      var w := WordPrefix(s);
      [w] + SplitWhitespace(s[|w|..])
  }

  /** The runs `ws` woven with the pieces: `ws[0] + parts[0] + ws[1] + … + parts[n-1] + ws[n]`. */
  function Weave(ws: seq<string>, parts: seq<string>): string
    requires |ws| == |parts| + 1
    decreases |parts|
  {
    if |parts| == 0 then ws[0]
    else ws[0] + parts[0] + Weave(ws[1..], parts[1..])
  }

  /** A code point more at the front of the first run is a code point more at the front of the weave. */
  lemma {:induction false} WeaveLongerRun(c: char, ws: seq<string>, parts: seq<string>)
    requires |ws| == |parts| + 1
    ensures Weave([[c] + ws[0]] + ws[1..], parts) == [c] + Weave(ws, parts)
  {
    var ws' := [[c] + ws[0]] + ws[1..];
    assert ws'[0] == [c] + ws[0] && ws'[1..] == ws[1..];
  }

  /** A piece in front, after an empty run, is that piece in front of the weave. */
  lemma WeaveWord(w: string, ws: seq<string>, parts: seq<string>)
    requires |ws| == |parts| + 1
    ensures Weave([""] + ws, [w] + parts) == w + Weave(ws, parts)
  {
    var ws' := [""] + ws;
    var parts' := [w] + parts;
    assert ws'[0] == "" && ws'[1..] == ws;
    assert parts'[0] == w && parts'[1..] == parts;
    assert Weave(ws', parts') == ws'[0] + parts'[0] + Weave(ws'[1..], parts'[1..]);
    assert "" + w == w;
  }

  /**
   * `s` is its whitespace-separated pieces woven with whitespace runs, the
   * runs between two pieces non-empty: pieces and runs are thus determined
   * by `s`, and each piece is a maximal run of non-whitespace.
   */
  lemma {:induction false} SplitWhitespaceRuns(s: string) returns (ws: seq<string>)
    ensures |ws| == |SplitWhitespace(s)| + 1
    ensures forall i :: 0 <= i < |ws| ==> AllSpace(ws[i])
    ensures forall i :: 0 < i < |ws| - 1 ==> |ws[i]| > 0
    ensures s == Weave(ws, SplitWhitespace(s))
    ensures |s| > 0 && IsSpace(s[0]) ==> |ws[0]| > 0
    decreases |s|
  {
    if |s| == 0 {
      ws := [""];
    } else if IsSpace(s[0]) {
      var tail := SplitWhitespaceRuns(s[1..]);
      ws := LeadingSpaceRuns(s, tail);
    } else {
      var w := WordPrefix(s);
      var tail := SplitWhitespaceRuns(s[|w|..]);
      ws := [""] + tail;
      WordRuns(s, w, tail);
    }
  }

  /** The step of `SplitWhitespaceRuns` past a leading whitespace code point. */
  lemma LeadingSpaceRuns(s: string, tail: seq<string>) returns (ws: seq<string>)
    requires |s| > 0 && IsSpace(s[0])
    requires |tail| == |SplitWhitespace(s[1..])| + 1
    requires forall i :: 0 <= i < |tail| ==> AllSpace(tail[i])
    requires forall i :: 0 < i < |tail| - 1 ==> |tail[i]| > 0
    requires s[1..] == Weave(tail, SplitWhitespace(s[1..]))
    ensures ws == [[s[0]] + tail[0]] + tail[1..]
    ensures |ws| == |SplitWhitespace(s)| + 1
    ensures forall i :: 0 <= i < |ws| ==> AllSpace(ws[i])
    ensures forall i :: 0 < i < |ws| - 1 ==> |ws[i]| > 0
    ensures s == Weave(ws, SplitWhitespace(s)) && |ws[0]| > 0
  {
    ws := [[s[0]] + tail[0]] + tail[1..];
    assert SplitWhitespace(s) == SplitWhitespace(s[1..]);
    assert forall i :: 0 < i < |ws| ==> ws[i] == tail[i];
    WeaveLongerRun(s[0], tail, SplitWhitespace(s[1..]));
    assert s == [s[0]] + s[1..];
  }

  /** The step of `SplitWhitespaceRuns` past a leading piece `w`. */
  lemma WordRuns(s: string, w: string, tail: seq<string>)
    requires |s| > 0 && !IsSpace(s[0]) && w == WordPrefix(s)
    requires |tail| == |SplitWhitespace(s[|w|..])| + 1
    requires forall i :: 0 <= i < |tail| ==> AllSpace(tail[i])
    requires forall i :: 0 < i < |tail| - 1 ==> |tail[i]| > 0
    requires s[|w|..] == Weave(tail, SplitWhitespace(s[|w|..]))
    requires |s[|w|..]| > 0 && IsSpace(s[|w|..][0]) ==> |tail[0]| > 0
    ensures |[""] + tail| == |SplitWhitespace(s)| + 1
    ensures forall i :: 0 <= i < |[""] + tail| ==> AllSpace(([""] + tail)[i])
    ensures forall i :: 0 < i < |[""] + tail| - 1 ==> |([""] + tail)[i]| > 0
    ensures s == Weave([""] + tail, SplitWhitespace(s))
  {
    var rest := s[|w|..];
    var ws := [""] + tail;
    assert SplitWhitespace(s) == [w] + SplitWhitespace(rest);
    WeaveWord(w, tail, SplitWhitespace(rest));
    assert s == w + rest;
    forall i | 0 < i < |ws| - 1 ensures |ws[i]| > 0 {
      assert ws[i] == tail[i - 1];
      if i == 1 {
        assert |rest| > 0;
      }
    }
  }

  /** `s` with every whitespace code point deleted. */
  function RemoveSpaces(s: string): string
    decreases |s|
  {
    if |s| == 0 then ""
    else if IsSpace(s[0]) then RemoveSpaces(s[1..])
    else [s[0]] + RemoveSpaces(s[1..])
  }

  function Concat(parts: seq<string>): string
    decreases |parts|
  {
    if |parts| == 0 then "" else parts[0] + Concat(parts[1..])
  }

  lemma {:induction false} RemoveSpacesAppend(a: string, b: string)
    ensures RemoveSpaces(a + b) == RemoveSpaces(a) + RemoveSpaces(b)
    decreases |a|
  {
    if |a| == 0 {
      assert a + b == b;
    } else {
      assert (a + b)[0] == a[0];
      assert (a + b)[1..] == a[1..] + b;
      RemoveSpacesAppend(a[1..], b);
    }
  }

  lemma {:induction false} RemoveSpacesNoSpace(s: string)
    requires NoSpace(s)
    ensures RemoveSpaces(s) == s
    decreases |s|
  {
    if |s| > 0 {
      RemoveSpacesNoSpace(s[1..]);
    }
  }

  /**
   * `str.split()` loses exactly the whitespace: gluing the pieces back together
   * gives the input with its whitespace deleted.
   */
  lemma {:induction false} SplitWhitespaceKeepsText(s: string)
    ensures Concat(SplitWhitespace(s)) == RemoveSpaces(s)
    decreases |s|
  {
    if |s| == 0 {
    } else if IsSpace(s[0]) {
      SplitWhitespaceKeepsText(s[1..]);
    } else {
      var w := WordPrefix(s);
      SplitWhitespaceKeepsText(s[|w|..]);
      assert SplitWhitespace(s) == [w] + SplitWhitespace(s[|w|..]);
      assert ([w] + SplitWhitespace(s[|w|..]))[1..] == SplitWhitespace(s[|w|..]);
      assert s == w + s[|w|..];
      RemoveSpacesAppend(w, s[|w|..]);
      RemoveSpacesNoSpace(w);
    }
  }
}
