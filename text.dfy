/** The two string operations the search uses: `str.split()` with no
    argument, which cuts a string at runs of whitespace and drops empty
    pieces, and the substring test `word in text`. */
module Text {

  /** The characters Python's `str.isspace` accepts, which are the ones
      `str.split()` cuts at. */
  predicate IsSpace(c: char) {
    c == ' ' || '\t' <= c <= '\r' || '\U{1C}' <= c <= '\U{1F}'
    || c == '\U{85}' || c == '\U{A0}' || c == '\U{1680}'
    || '\U{2000}' <= c <= '\U{200A}' || c == '\U{2028}' || c == '\U{2029}'
    || c == '\U{202F}' || c == '\U{205F}' || c == '\U{3000}'
  }

  predicate NoSpace(s: string) {
    forall i :: 0 <= i < |s| ==> !IsSpace(s[i])
  }

  predicate IsBlank(s: string) {
    forall i :: 0 <= i < |s| ==> IsSpace(s[i])
  }

  /** A word as `str.split()` returns one: non-empty, no whitespace. */
  predicate IsWord(w: string) {
    w != [] && NoSpace(w)
  }

  /** The length of the run of non-whitespace characters that starts `s`. */
  function RunLength(s: string): (n: nat)
    ensures n <= |s| && NoSpace(s[..n])
    ensures n < |s| ==> IsSpace(s[n])
  {
    if s == [] || IsSpace(s[0]) then 0 else 1 + RunLength(s[1..])
  }

  /** `s.split()`: the maximal whitespace-free runs of `s`, in order. */
  function Split(s: string): (words: seq<string>)
    ensures forall k :: 0 <= k < |words| ==> IsWord(words[k])
    decreases |s|
  {
    if s == [] then []
    else if IsSpace(s[0]) then Split(s[1..])
    else
      var n := RunLength(s);
      [s[..n]] + Split(s[n..])
  }

  /** `s[i..j]` is a maximal whitespace-free run of `s`: non-empty, with no
      whitespace in it, and bounded by the ends of `s` or by whitespace. */
  predicate IsRun(s: string, i: int, j: int) {
    0 <= i < j <= |s| && (forall k :: i <= k < j ==> !IsSpace(s[k]))
    && (i == 0 || IsSpace(s[i - 1])) && (j == |s| || IsSpace(s[j]))
  }

  /** A run of a suffix `s[k..]` is a run of `s`, shifted by `k`, as long as
      it does not start the suffix right after a non-whitespace character. */
  lemma RunOfSuffix(s: string, k: nat, i: nat, j: int)
    requires k <= |s|
    requires i > 0 || k == 0 || IsSpace(s[k - 1])
    ensures IsRun(s[k..], i, j) <==> IsRun(s, i + k, j + k)
    ensures i <= j <= |s| - k ==> s[k..][i..j] == s[i + k..j + k]
  {
    var t := s[k..];
    if i < j <= |t| {
      forall m | i + k <= m < j + k ensures s[m] == t[m - k] { }
      if i > 0 { assert t[i - 1] == s[i + k - 1]; }
      if j < |t| { assert t[j] == s[j + k]; }
    }
  }

  /** The leading word of `s` has no whitespace in it. */
  lemma LeadingWordHasNoSpace(s: string)
    ensures forall k :: 0 <= k < RunLength(s) ==> !IsSpace(s[k])
  {
    var n := RunLength(s);
    forall k | 0 <= k < n ensures !IsSpace(s[k]) { assert s[..n][k] == s[k]; }
  }

  /** `w` is one of the maximal whitespace-free runs of `s`. */
  ghost predicate HasRun(s: string, w: string) {
    exists i, j :: IsRun(s, i, j) && s[i..j] == w
  }

  /** Leading whitespace starts no run: every run of `s` is a run of
      `s[1..]`, shifted by one. */
  lemma RunAfterSpace(s: string, i: int, j: int)
    requires s != [] && IsSpace(s[0]) && IsRun(s, i, j)
    ensures 0 < i && IsRun(s[1..], i - 1, j - 1) && s[1..][i - 1..j - 1] == s[i..j]
  {
    RunOfSuffix(s, 1, i - 1, j - 1);
  }

  /** A run at the start of `s` is the leading word. */
  lemma FirstRunIsWord(s: string, j: int)
    requires IsRun(s, 0, j)
    ensures j == RunLength(s)
  {
    LeadingWordHasNoSpace(s);
  }

  /** The leading word of a string that does not start with whitespace is a
      run. */
  lemma LeadingWordIsRun(s: string)
    requires s != [] && !IsSpace(s[0])
    ensures IsRun(s, 0, RunLength(s)) && s[0..RunLength(s)] == s[..RunLength(s)]
  {
    LeadingWordHasNoSpace(s);
  }

  /** A run that does not start `s` lies after the leading word, and is a run
      of what follows it. */
  lemma LaterRunAfterWord(s: string, i: int, j: int)
    requires IsRun(s, i, j) && i > 0
    ensures var n := RunLength(s);
      n < i && IsRun(s[n..], i - n, j - n) && s[n..][i - n..j - n] == s[i..j]
  {
    var n := RunLength(s);
    LeadingWordHasNoSpace(s);
    assert n < i;
    RunOfSuffix(s, n, i - n, j - n);
  }

  /** Runs of what follows the leading word are runs of the whole string. */
  lemma RestRunIsRun(s: string, i: int, j: int)
    requires s != [] && !IsSpace(s[0])
    requires IsRun(s[RunLength(s)..], i, j)
    ensures var n := RunLength(s);
      IsRun(s, i + n, j + n) && s[i + n..j + n] == s[n..][i..j]
  {
    var n := RunLength(s);
    assert s[n..][i] == s[i + n];
    assert i != 0;
    RunOfSuffix(s, n, i, j);
  }

  /** The words of `s.split()` are exactly the maximal whitespace-free runs
      of `s`. */
  lemma {:induction false} SplitIsRuns(s: string)
    ensures forall w :: w in Split(s) <==> exists i, j :: IsRun(s, i, j) && s[i..j] == w
    decreases |s|
  {
    if s != [] {
      if IsSpace(s[0]) {
        SplitIsRuns(s[1..]);
        forall w ensures w in Split(s) <==> HasRun(s, w) {
          if HasRun(s, w) {
            var i, j :| IsRun(s, i, j) && s[i..j] == w;
            RunAfterSpace(s, i, j);
          }
          if w in Split(s[1..]) {
            var i, j :| IsRun(s[1..], i, j) && s[1..][i..j] == w;
            RunOfSuffix(s, 1, i, j);
          }
        }
      } else {
        var n := RunLength(s);
        SplitIsRuns(s[n..]);
        assert Split(s) == [s[..n]] + Split(s[n..]);
        forall w ensures w in Split(s) <==> HasRun(s, w) {
          if HasRun(s, w) {
            var i, j :| IsRun(s, i, j) && s[i..j] == w;
            if i == 0 {
              FirstRunIsWord(s, j);
            } else {
              LaterRunAfterWord(s, i, j);
            }
          }
          if w == s[..n] {
            LeadingWordIsRun(s);
          }
          if w in Split(s[n..]) {
            var i, j :| IsRun(s[n..], i, j) && s[n..][i..j] == w;
            RestRunIsRun(s, i, j);
          }
        }
      }
    }
  }

  /** An empty or all-whitespace string has no words, and only such a string. */
  lemma {:induction false} SplitEmptyIffBlank(s: string)
    ensures Split(s) == [] <==> IsBlank(s)
    decreases |s|
  {
    if s != [] && IsSpace(s[0]) {
      SplitEmptyIffBlank(s[1..]);
      if IsBlank(s[1..]) {
        forall i | 0 <= i < |s| ensures IsSpace(s[i]) {
          if i > 0 { assert s[i] == s[1..][i - 1]; }
        }
      }
    }
  }

  /** Words separated by single spaces (`" ".join(words)`). */
  function Unsplit(words: seq<string>): string {
    if |words| == 0 then []
    else if |words| == 1 then words[0]
    else words[0] + " " + Unsplit(words[1..])
  }

  lemma {:induction false} SplitWordThen(w: string, rest: string)
    requires IsWord(w)
    requires rest == [] || IsSpace(rest[0])
    ensures Split(w + rest) == [w] + Split(rest)
    decreases |w|
  {
    var s := w + rest;
    RunLengthOfWord(w, rest);
    assert s[..|w|] == w && s[|w|..] == rest;
  }

  lemma {:induction false} RunLengthOfWord(w: string, rest: string)
    requires NoSpace(w)
    requires rest == [] || IsSpace(rest[0])
    ensures RunLength(w + rest) == |w|
    decreases |w|
  {
    if w != [] {
      assert (w + rest)[1..] == w[1..] + rest;
      RunLengthOfWord(w[1..], rest);
    }
  }

  /** Splitting words joined by spaces gives the same words back. */
  lemma {:induction false} SplitUnsplit(words: seq<string>)
    requires forall k :: 0 <= k < |words| ==> IsWord(words[k])
    ensures Split(Unsplit(words)) == words
  {
    if |words| == 1 {
      SplitWordThen(words[0], []);
      assert words[0] + [] == words[0];
    } else if |words| > 1 {
      var rest := Unsplit(words[1..]);
      SplitUnsplit(words[1..]);
      assert words[0] + " " + rest == words[0] + (" " + rest);
      SplitWordThen(words[0], " " + rest);
      assert (" " + rest)[1..] == rest;
    }
  }

  /** `w` is a prefix of `t`. */
  predicate StartsWith(t: string, w: string) {
    |w| <= |t| && t[..|w|] == w
  }

  /** `w in t` for strings: `w` occurs somewhere in `t`. */
  predicate Contains(t: string, w: string)
    decreases |t|
  {
    StartsWith(t, w) || (t != [] && Contains(t[1..], w))
  }

  /** `w` occurs in `t` starting at index `i`. */
  predicate OccursAt(t: string, w: string, i: int) {
    0 <= i && i + |w| <= |t| && t[i..i + |w|] == w
  }

  /** `Contains` holds exactly when `w` occurs at some position of `t`. */
  lemma {:induction false} ContainsIffOccurs(t: string, w: string)
    ensures Contains(t, w) <==> exists i :: OccursAt(t, w, i)
    decreases |t|
  {
    if t != [] {
      ContainsIffOccurs(t[1..], w);
      if Contains(t[1..], w) {
        var i :| OccursAt(t[1..], w, i);
        assert OccursAt(t, w, i + 1);
      }
      if StartsWith(t, w) {
        assert OccursAt(t, w, 0);
      } else if exists i :: OccursAt(t, w, i) {
        var i :| OccursAt(t, w, i);
        assert i != 0;
        assert OccursAt(t[1..], w, i - 1);
      }
    } else if w == [] {
      assert OccursAt(t, w, 0);
    }
  }
}
