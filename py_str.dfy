/**
  The few Python `str` builtins the pipeline relies on, over `seq<char>`:
  `str.isspace` (the separator set of `str.split()`), `str.lower` restricted to
  ASCII letters, `str.find` for one character, `str.replace` for one character,
  and `str.split()` with no argument.
*/
module PyStr {

  /** Python's `str.isspace()` for one code point: the characters `str.split()` splits on. */
  predicate IsSpace(c: char)
  {
    || ('\t' <= c <= '\r')                 // \t \n \x0b \x0c \r
    || ('\U{1C}' <= c <= '\U{1F}')         // file, group, record and unit separators
    || c == ' ' || c == '\U{85}' || c == '\U{A0}' || c == '\U{1680}'
    || ('\U{2000}' <= c <= '\U{200A}')
    || c == '\U{2028}' || c == '\U{2029}' || c == '\U{202F}' || c == '\U{205F}' || c == '\U{3000}'
  }

  predicate NoSpace(s: string)
  {
    forall i :: 0 <= i < |s| ==> !IsSpace(s[i])
  }

  /** ASCII case folding of one character: `A`..`Z` to `a`..`z`, everything else unchanged. */
  function LowerChar(c: char): (d: char)
    ensures IsSpace(d) <==> IsSpace(c)
    ensures !('A' <= d <= 'Z')
  {
    if 'A' <= c <= 'Z' then (c as int - 'A' as int + 'a' as int) as char else c
  }

  /** `s.lower()`, restricted to ASCII. */
  function Lower(s: string): (r: string)
    ensures |r| == |s|
    ensures forall i :: 0 <= i < |s| ==> r[i] == LowerChar(s[i])
  {
    if s == [] then [] else [LowerChar(s[0])] + Lower(s[1..])
  }

  /** `s.find(c)`: the index of the first `c` in `s`, or -1 when there is none. */
  function Find(s: string, c: char): (r: int)
    ensures r == -1 <==> c !in s
    ensures r != -1 ==> 0 <= r < |s| && s[r] == c && c !in s[..r]
  {
    if s == [] then -1
    else if s[0] == c then 0
    else
      var k := Find(s[1..], c);
      if k == -1 then -1
      else
        assert s[..k + 1] == [s[0]] + s[1..][..k];
        k + 1
  }

  /** `s.replace(from, to)` for single characters: every `from` becomes `to`, nothing else moves. */
  function Replace(s: string, from: char, to: char): (r: string)
    ensures |r| == |s|
    ensures forall i :: 0 <= i < |s| ==> r[i] == if s[i] == from then to else s[i]
  {
    if s == [] then [] else [if s[0] == from then to else s[0]] + Replace(s[1..], from, to)
  }

  /** Length of the run of non-whitespace characters that starts `s`. */
  function RunLength(s: string): (n: nat)
    ensures n <= |s|
    ensures forall i :: 0 <= i < n ==> !IsSpace(s[i])
    ensures n == |s| || IsSpace(s[n])
  {
    if s == [] || IsSpace(s[0]) then 0 else 1 + RunLength(s[1..])
  }

  /** `s.split()`: the maximal runs of non-whitespace characters, left to right. */
  function Split(s: string): (tokens: seq<string>)
    ensures forall t :: t in tokens ==> |t| > 0 && NoSpace(t)
    decreases |s|
  {
    if s == [] then []
    else if IsSpace(s[0]) then Split(s[1..])
    else
      var n := RunLength(s);
      [s[..n]] + Split(s[n..])
  }

  /** `t` occurs in `s` at position `i` as a whole whitespace-delimited word. */
  ghost predicate WordAt(s: string, i: int, t: string)
  {
    && 0 <= i && i + |t| <= |s| && |t| > 0
    && s[i..i + |t|] == t && NoSpace(t)
    && (i == 0 || IsSpace(s[i - 1]))
    && (i + |t| == |s| || IsSpace(s[i + |t|]))
  }

  /** Away from the front, a word of a suffix of `s` is a word of `s`, shifted. */
  lemma WordAtSuffix(s: string, k: nat, j: int, t: string)
    requires k <= |s| && j > 0
    ensures WordAt(s[k..], j, t) <==> WordAt(s, j + k, t)
  {
  }

  /** A leading whitespace character neither starts nor ends a word. */
  lemma WordsAfterSpace(s: string, t: string)
    requires s != [] && IsSpace(s[0])
    ensures (exists i :: WordAt(s, i, t)) <==> (exists j :: WordAt(s[1..], j, t))
  {
    if exists i :: WordAt(s, i, t) {
      var i :| WordAt(s, i, t);
      if i == 1 {
        assert s[1..][0..|t|] == s[1..1 + |t|];
        assert WordAt(s[1..], 0, t);
      } else {
        WordAtSuffix(s, 1, i - 1, t);
      }
    }
    if exists j :: WordAt(s[1..], j, t) {
      var j :| WordAt(s[1..], j, t);
      if j == 0 {
        assert s[1..][0..|t|] == s[1..1 + |t|];
        assert WordAt(s, 1, t);
      } else {
        WordAtSuffix(s, 1, j, t);
      }
    }
  }

  /** A word starting inside, or right after, the leading run of `s` is that run itself. */
  lemma WordWithinRun(s: string, i: int, t: string)
    requires WordAt(s, i, t) && i <= RunLength(s)
    ensures i == 0 && t == s[..RunLength(s)]
  {
  }

  /** No word starts right where the leading run of `s` ends: that position holds whitespace. */
  lemma NoWordAtRunEnd(s: string, t: string)
    ensures !WordAt(s[RunLength(s)..], 0, t)
  {
  }

  /** Every word of a string that starts with a run is that run or a word after it. */
  lemma WordsOfRunAreKnown(s: string, i: int, t: string)
    requires s != [] && !IsSpace(s[0]) && WordAt(s, i, t)
    ensures t == s[..RunLength(s)] || WordAt(s[RunLength(s)..], i - RunLength(s), t)
  {
    var n := RunLength(s);
    if i <= n {
      WordWithinRun(s, i, t);
    } else {
      WordAtSuffix(s, n, i - n, t);
    }
  }

  /** A word after the leading run is a word of the whole string. */
  lemma WordAfterRunIsWord(s: string, j: int, t: string)
    requires WordAt(s[RunLength(s)..], j, t)
    ensures WordAt(s, j + RunLength(s), t)
  {
    NoWordAtRunEnd(s, t);
    WordAtSuffix(s, RunLength(s), j, t);
  }

  /** When `s` starts with a run, its words are that run and the words after it. */
  lemma WordsAfterRun(s: string, t: string)
    requires s != [] && !IsSpace(s[0])
    ensures (exists i :: WordAt(s, i, t))
        <==> (t == s[..RunLength(s)] || exists j :: WordAt(s[RunLength(s)..], j, t))
  {
    var n := RunLength(s);
    if exists i :: WordAt(s, i, t) {
      var i :| WordAt(s, i, t);
      WordsOfRunAreKnown(s, i, t);
    }
    if t == s[..n] {
      assert WordAt(s, 0, t);
    } else if exists j :: WordAt(s[n..], j, t) {
      var j :| WordAt(s[n..], j, t);
      WordAfterRunIsWord(s, j, t);
    }
  }

  /** The tokens of `s.split()` are exactly the whole words of `s`. */
  lemma {:induction false} SplitIsWords(s: string, t: string)
    ensures t in Split(s) <==> exists i :: WordAt(s, i, t)
    decreases |s|
  {
    if s == [] {
    } else if IsSpace(s[0]) {
      SplitIsWords(s[1..], t);
      WordsAfterSpace(s, t);
    } else {
      SplitIsWords(s[RunLength(s)..], t);
      WordsAfterRun(s, t);
    }
  }

  /** A non-empty string without whitespace splits into itself. */
  lemma SplitOfOneWord(s: string)
    requires s != [] && NoSpace(s)
    ensures Split(s) == [s]
  {
    assert RunLength(s) == |s|;
    assert s[..|s|] == s && s[|s|..] == [];
  }

  /** Lower-casing text with no ASCII capitals changes nothing. */
  lemma LowerOfLowercase(s: string)
    requires forall i :: 0 <= i < |s| ==> !('A' <= s[i] <= 'Z')
    ensures Lower(s) == s
  {
  }
}
