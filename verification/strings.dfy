/**
  Strings as sequences of characters, with the two Python string operations
  the transcriber relies on:

  - `str.replace(old, new)`: every leftmost, non-overlapping occurrence of
    `old` is replaced, scanning left to right over the input;
  - `str.strip()`: leading and trailing white space is removed, using
    Python's notion of white space.

  `ReplaceAll` is defined by a left-to-right scan; `Split` and `Join` give
  an independent definition (Python's own identity
  `s.replace(old, new) == new.join(s.split(old))`), and the two are proved
  equal.
 */
module Strings {
  import opened Wrappers

  /** `pat` occurs in `s` starting at index `i`. */
  predicate OccursAt(s: string, pat: string, i: int)
  {
    0 <= i && i + |pat| <= |s| && s[i..i + |pat|] == pat
  }

  /** `pat` occurs somewhere in `s` (Python's `pat in s`). */
  predicate Contains(s: string, pat: string)
    requires |pat| > 0
    decreases |s|
  {
    |pat| <= |s| && (s[..|pat|] == pat || Contains(s[1..], pat))
  }

  lemma OccursAtTail(s: string, pat: string, j: int)
    requires |s| > 0 && 1 <= j
    ensures OccursAt(s, pat, j) <==> OccursAt(s[1..], pat, j - 1)
  {
    if j + |pat| <= |s| {
      assert s[1..][j - 1..j - 1 + |pat|] == s[j..j + |pat|];
    }
  }

  /** Index of the leftmost occurrence of `pat` in `s` (Python's `s.find(pat)`). */
  function FindFirst(s: string, pat: string): (r: Option<nat>)
    requires |pat| > 0
    decreases |s|
    ensures r.Some? <==> Contains(s, pat)
    ensures r.Some? ==> OccursAt(s, pat, r.value)
    ensures r.Some? ==> forall j :: 0 <= j < r.value ==> !OccursAt(s, pat, j)
    ensures r.None? ==> forall j :: !OccursAt(s, pat, j)
  {
    if |s| < |pat| then None
    else if s[..|pat|] == pat then Some(0)
    else
      var rest := FindFirst(s[1..], pat);
      assert !OccursAt(s, pat, 0) by { assert s[0..|pat|] == s[..|pat|]; }
      assert forall j :: 1 <= j ==> (OccursAt(s, pat, j) <==> OccursAt(s[1..], pat, j - 1)) by {
        forall j | 1 <= j ensures OccursAt(s, pat, j) <==> OccursAt(s[1..], pat, j - 1) {
          OccursAtTail(s, pat, j);
        }
      }
      match rest
      case None => None
      case Some(k) => Some(k + 1)
  }

  /** `Contains` agrees with the existence of an occurrence. */
  lemma ContainsIffOccurs(s: string, pat: string)
    requires |pat| > 0
    ensures Contains(s, pat) <==> exists i :: OccursAt(s, pat, i)
  {
    var f := FindFirst(s, pat);
    if f.Some? {
      assert OccursAt(s, pat, f.value);
    }
  }

  /**
    Python's `s.replace(pat, rep)` for a non-empty `pat`: scanning from the
    left, each occurrence is replaced and the scan resumes after it, so
    occurrences never overlap and the replacement is never rescanned.
   */
  function ReplaceAll(s: string, pat: string, rep: string): string
    requires |pat| > 0
    decreases |s|
  {
    if |s| < |pat| then s
    else if s[..|pat|] == pat then rep + ReplaceAll(s[|pat|..], pat, rep)
    else [s[0]] + ReplaceAll(s[1..], pat, rep)
  }

  /** Without an occurrence of the pattern, replacement leaves the text as it is. */
  lemma {:induction false} ReplaceAllWithoutMatch(s: string, pat: string, rep: string)
    requires |pat| > 0 && !Contains(s, pat)
    decreases |s|
    ensures ReplaceAll(s, pat, rep) == s
  {
    if |s| >= |pat| {
      ReplaceAllWithoutMatch(s[1..], pat, rep);
      assert s == [s[0]] + s[1..];
    }
  }

  /**
    A replacement no longer than its pattern never lengthens the text, and a
    strictly shorter one strictly shortens any text the pattern occurs in.
   */
  lemma {:induction false} ReplaceAllShrinks(s: string, pat: string, rep: string)
    requires |pat| > 0 && |rep| <= |pat|
    decreases |s|
    ensures |ReplaceAll(s, pat, rep)| <= |s|
    ensures |rep| < |pat| && Contains(s, pat) ==> |ReplaceAll(s, pat, rep)| < |s|
  {
    if |s| < |pat| {
    } else if s[..|pat|] == pat {
      ReplaceAllShrinks(s[|pat|..], pat, rep);
    } else {
      ReplaceAllShrinks(s[1..], pat, rep);
    }
  }

  /** A text shorter than the pattern is left as it is. */
  lemma ReplaceAllShort(s: string, pat: string, rep: string)
    requires 0 < |pat| && |s| < |pat|
    ensures ReplaceAll(s, pat, rep) == s
  {
  }

  lemma ConcatAssoc<T>(a: seq<T>, b: seq<T>, c: seq<T>)
    ensures a + (b + c) == a + b + c
  {
  }

  /**
    Putting the first character back in front of a regrouped tail. The
    texts come in as parameters tied by equalities so that the caller's
    large `ReplaceAll` terms stay unexpanded names to the solver here.
   */
  lemma Regroup(s: string, k: nat, mid: string, whole: string, tail: string, tailRest: string, rest: string)
    requires 0 < k <= |s|
    requires whole == [s[0]] + tail && tail == s[1..][..k - 1] + mid + tailRest && tailRest == rest
    ensures whole == s[..k] + mid + rest
  {
    ConsPrefix(s, k, mid, rest);
  }

  lemma ConsPrefix(s: string, k: nat, mid: string, rest: string)
    requires 0 < k <= |s|
    ensures [s[0]] + (s[1..][..k - 1] + mid + rest) == s[..k] + mid + rest
  {
    assert [s[0]] + s[1..][..k - 1] == s[..k];
    ConcatAssoc([s[0]], s[1..][..k - 1] + mid, rest);
    ConcatAssoc([s[0]], s[1..][..k - 1], mid);
  }

  /** No occurrence starts at 0 when the pattern and `s` part at position `k`. */
  lemma MismatchAt(s: string, pat: string, k: nat)
    requires k < |pat| && (k < |s| ==> s[k] != pat[k])
    ensures !OccursAt(s, pat, 0)
  {
    if |pat| <= |s| {
      assert s[0..|pat|][k] == s[k];
    }
  }

  /** A stretch holding no first character of the pattern is copied as it is. */
  lemma {:induction false} ReplaceAllKeep(w: string, t: string, pat: string, rep: string)
    requires |pat| > 0 && pat[0] !in w
    decreases |w|
    ensures ReplaceAll(w + t, pat, rep) == w + ReplaceAll(t, pat, rep)
  {
    if w != [] {
      var s := w + t;
      assert s[0] == w[0];
      ReplaceAllSkip(s, pat, rep);
      ReplaceAllKeep(w[1..], t, pat, rep);
      assert s[1..] == w[1..] + t;
      assert [w[0]] + w[1..] == w;
    } else {
      assert w + t == t;
    }
  }

  /** Python's `s.split(pat)`: the pieces between leftmost occurrences. */
  function Split(s: string, pat: string): (parts: seq<string>)
    requires |pat| > 0
    decreases |s|
    ensures |parts| >= 1
  {
    match FindFirst(s, pat)
    case None => [s]
    case Some(k) => [s[..k]] + Split(s[k + |pat|..], pat)
  }

  /** Python's `sep.join(parts)`. */
  function Join(parts: seq<string>, sep: string): string
  {
    if |parts| == 0 then []
    else if |parts| == 1 then parts[0]
    else parts[0] + sep + Join(parts[1..], sep)
  }

  /** No occurrence of `pat` in `s` starts before index `k`. */
  ghost predicate NoneBefore(s: string, pat: string, k: int)
  {
    forall j :: 0 <= j < k ==> !OccursAt(s, pat, j)
  }

  /** One scan step of `ReplaceAll`: the text before the leftmost occurrence is kept as is. */
  lemma {:induction false} ReplaceAllAtFirst(s: string, pat: string, rep: string, k: nat)
    requires |pat| > 0 && OccursAt(s, pat, k) && NoneBefore(s, pat, k)
    decreases k, 1
    ensures ReplaceAll(s, pat, rep) == s[..k] + rep + ReplaceAll(s[k + |pat|..], pat, rep)
  {
    if k == 0 {
      assert s[..|pat|] == s[0..|pat|];
    } else {
      ReplaceAllAfterFirst(s, pat, rep, k);
    }
  }

  /** The inductive step of `ReplaceAllAtFirst`, for an occurrence past the first character. */
  lemma {:induction false} ReplaceAllAfterFirst(s: string, pat: string, rep: string, k: nat)
    requires |pat| > 0 && 0 < k && OccursAt(s, pat, k) && NoneBefore(s, pat, k)
    decreases k, 0
    ensures ReplaceAll(s, pat, rep) == s[..k] + rep + ReplaceAll(s[k + |pat|..], pat, rep)
  {
    var t := s[1..];
    AtFirstSkip(s, pat, rep, k);
    ReplaceAllAtFirst(t, pat, rep, k - 1);
    var rest := ReplaceAll(s[k + |pat|..], pat, rep);
    Regroup(s, k, rep, ReplaceAll(s, pat, rep), ReplaceAll(t, pat, rep), ReplaceAll(t[k - 1 + |pat|..], pat, rep), rest);
  }

  /** Before the leftmost occurrence at `k > 0`, the scan copies the first character and looks for it at `k - 1`. */
  lemma AtFirstSkip(s: string, pat: string, rep: string, k: nat)
    requires |pat| > 0 && 0 < k && OccursAt(s, pat, k) && NoneBefore(s, pat, k)
    ensures ReplaceAll(s, pat, rep) == [s[0]] + ReplaceAll(s[1..], pat, rep)
    ensures OccursAt(s[1..], pat, k - 1) && NoneBefore(s[1..], pat, k - 1)
    ensures s[1..][k - 1 + |pat|..] == s[k + |pat|..]
  {
    ReplaceAllSkip(s, pat, rep);
    NoneBeforeTail(s, pat, k);
  }

  /** Where no occurrence starts, the scan copies one character and moves on. */
  lemma ReplaceAllSkip(s: string, pat: string, rep: string)
    requires |pat| > 0 && |s| > 0 && !OccursAt(s, pat, 0)
    ensures ReplaceAll(s, pat, rep) == [s[0]] + ReplaceAll(s[1..], pat, rep)
  {
    if |s| < |pat| {
      assert s == [s[0]] + s[1..];
    } else {
      assert s[..|pat|] == s[0..|pat|];
    }
  }

  lemma NoneBeforeTail(s: string, pat: string, k: nat)
    requires |pat| > 0 && k >= 1 && OccursAt(s, pat, k) && NoneBefore(s, pat, k)
    ensures OccursAt(s[1..], pat, k - 1) && NoneBefore(s[1..], pat, k - 1)
  {
    OccursAtTail(s, pat, k);
    forall j | 0 <= j < k - 1 ensures !OccursAt(s[1..], pat, j) {
      OccursAtTail(s, pat, j + 1);
    }
  }

  /** Every occurrence of `pat` in `s` ends by index `n`. */
  ghost predicate EndsBefore(s: string, pat: string, n: int)
  {
    forall i :: OccursAt(s, pat, i) ==> i + |pat| <= n
  }

  lemma OccursShift(s: string, pat: string, m: nat, i: int)
    requires m <= |s| && OccursAt(s[m..], pat, i)
    ensures OccursAt(s, pat, i + m)
  {
    assert s[m..][i..i + |pat|] == s[i + m..i + m + |pat|];
  }

  lemma EndsBeforeShift(s: string, pat: string, n: int, m: nat)
    requires m <= |s| && EndsBefore(s, pat, n)
    ensures EndsBefore(s[m..], pat, n - m)
  {
    forall i | OccursAt(s[m..], pat, i)
      ensures i + |pat| <= n - m
    {
      OccursShift(s, pat, m, i);
    }
  }

  /**
    A tail that no occurrence reaches into is copied as it is: replacing in
    `u + t` is replacing in `u` and appending `t`.
   */
  lemma {:induction false} ReplaceAllBeforeTail(u: string, t: string, pat: string, rep: string)
    requires |pat| > 0 && EndsBefore(u + t, pat, |u|)
    decreases |u|, 1
    ensures ReplaceAll(u + t, pat, rep) == ReplaceAll(u, pat, rep) + t
  {
    if u == [] {
      assert u + t == t;
      ContainsIffOccurs(t, pat);
      ReplaceAllWithoutMatch(t, pat, rep);
    } else if OccursAt(u + t, pat, 0) {
      BeforeTailMatch(u, t, pat, rep);
    } else {
      BeforeTailSkip(u, t, pat, rep);
    }
  }

  /** `ReplaceAllBeforeTail` when the scan finds the pattern at the front. */
  lemma {:induction false} BeforeTailMatch(u: string, t: string, pat: string, rep: string)
    requires |pat| > 0 && EndsBefore(u + t, pat, |u|) && OccursAt(u + t, pat, 0)
    decreases |u|, 0
    ensures ReplaceAll(u + t, pat, rep) == ReplaceAll(u, pat, rep) + t
  {
    var s := u + t;
    var n := |pat|;
    assert n <= |u|;
    assert u[..n] == pat by { assert u[..n] == s[0..n]; }
    assert s[..n] == pat by { assert s[..n] == s[0..n]; }
    assert s[n..] == u[n..] + t;
    EndsBeforeShift(s, pat, |u|, n);
    ReplaceAllBeforeTail(u[n..], t, pat, rep);
    ConcatAssoc(rep, ReplaceAll(u[n..], pat, rep), t);
  }

  /** `ReplaceAllBeforeTail` when the scan copies the first character. */
  lemma {:induction false} BeforeTailSkip(u: string, t: string, pat: string, rep: string)
    requires |pat| > 0 && EndsBefore(u + t, pat, |u|) && u != [] && !OccursAt(u + t, pat, 0)
    decreases |u|, 0
    ensures ReplaceAll(u + t, pat, rep) == ReplaceAll(u, pat, rep) + t
  {
    var s := u + t;
    ReplaceAllSkip(s, pat, rep);
    assert s[0] == u[0] && s[1..] == u[1..] + t;
    EndsBeforeShift(s, pat, |u|, 1);
    ReplaceAllBeforeTail(u[1..], t, pat, rep);
    assert !OccursAt(u, pat, 0) by {
      if |pat| <= |u| {
        assert u[0..|pat|] == s[0..|pat|];
      }
    }
    ReplaceAllSkip(u, pat, rep);
    ConcatAssoc([u[0]], ReplaceAll(u[1..], pat, rep), t);
  }

  /** Left-to-right replacement agrees with Python's split/join identity. */
  lemma {:induction false} ReplaceAllIsJoinOfSplit(s: string, pat: string, rep: string)
    requires |pat| > 0
    decreases |s|
    ensures ReplaceAll(s, pat, rep) == Join(Split(s, pat), rep)
  {
    match FindFirst(s, pat)
    case None =>
      ReplaceAllWithoutMatch(s, pat, rep);
    case Some(k) =>
      assert NoneBefore(s, pat, k);
      ReplaceAllAtFirst(s, pat, rep, k);
      var rest := s[k + |pat|..];
      ReplaceAllIsJoinOfSplit(rest, pat, rep);
      assert Split(s, pat) == [s[..k]] + Split(rest, pat);
      assert ([s[..k]] + Split(rest, pat))[1..] == Split(rest, pat);
  }

  /** Replacing a pattern by itself changes nothing. */
  lemma {:induction false} ReplaceAllSelf(s: string, pat: string)
    requires |pat| > 0
    decreases |s|
    ensures ReplaceAll(s, pat, pat) == s
  {
    if |s| < |pat| {
    } else if s[..|pat|] == pat {
      ReplaceAllSelf(s[|pat|..], pat);
      assert s == s[..|pat|] + s[|pat|..];
    } else {
      ReplaceAllSelf(s[1..], pat);
      assert s == [s[0]] + s[1..];
    }
  }

  /** Joining the pieces of a split with the same separator gives back the input. */
  lemma SplitJoinRoundTrip(s: string, pat: string)
    requires |pat| > 0
    ensures Join(Split(s, pat), pat) == s
  {
    ReplaceAllIsJoinOfSplit(s, pat, pat);
    ReplaceAllSelf(s, pat);
  }

  /** No piece of a split contains the separator. */
  lemma {:induction false} SplitPiecesAvoidPattern(s: string, pat: string)
    requires |pat| > 0
    decreases |s|
    ensures forall i :: 0 <= i < |Split(s, pat)| ==> !Contains(Split(s, pat)[i], pat)
  {
    match FindFirst(s, pat)
    case None =>
    case Some(k) =>
      var rest := s[k + |pat|..];
      SplitPiecesAvoidPattern(rest, pat);
      var head := s[..k];
      HeadAvoidsPattern(s, pat, k);
      var parts := Split(s, pat);
      assert parts == [head] + Split(rest, pat);
      forall i | 0 <= i < |parts|
        ensures !Contains(parts[i], pat)
      {
        if i > 0 {
          assert parts[i] == Split(rest, pat)[i - 1];
        }
      }
  }

  /** The text before the leftmost occurrence holds no occurrence. */
  lemma HeadAvoidsPattern(s: string, pat: string, k: nat)
    requires |pat| > 0 && k <= |s| && NoneBefore(s, pat, k)
    ensures !Contains(s[..k], pat)
  {
    var head := s[..k];
    forall j ensures !OccursAt(head, pat, j) {
      if 0 <= j && j + |pat| <= |head| {
        assert head[j..j + |pat|] == s[j..j + |pat|];
        assert !OccursAt(s, pat, j);
      }
    }
    ContainsIffOccurs(head, pat);
  }

  /** Where an occurrence starts, the scan emits the replacement and resumes after it. */
  lemma ReplaceAllMatch(s: string, pat: string, rep: string)
    requires |pat| > 0 && OccursAt(s, pat, 0)
    ensures ReplaceAll(s, pat, rep) == rep + ReplaceAll(s[|pat|..], pat, rep)
  {
    assert s[..|pat|] == s[0..|pat|];
  }

  /** The characters for which Python's `str.isspace()` holds: what `str.strip()` removes by default. */
  const Whitespace: set<char> :=
    {'\t', '\n', '\U{0b}', '\U{0c}', '\r', '\U{1c}', '\U{1d}', '\U{1e}', '\U{1f}', ' ',
     '\U{85}', '\U{a0}', '\U{1680}', '\U{2000}', '\U{2001}', '\U{2002}', '\U{2003}',
     '\U{2004}', '\U{2005}', '\U{2006}', '\U{2007}', '\U{2008}', '\U{2009}', '\U{200a}',
     '\U{2028}', '\U{2029}', '\U{202f}', '\U{205f}', '\U{3000}'}

  ghost predicate AllIn(s: string, chars: set<char>)
  {
    forall i :: 0 <= i < |s| ==> s[i] in chars
  }

  /** The first index from `i` on whose character is not in `chars`, or `|s|` if there is none. */
  function SkipForward(s: string, chars: set<char>, i: nat): (k: nat)
    requires i <= |s|
    decreases |s| - i
    ensures i <= k <= |s|
    ensures forall m :: i <= m < k ==> s[m] in chars
    ensures k < |s| ==> s[k] !in chars
  {
    if i < |s| && s[i] in chars then SkipForward(s, chars, i + 1) else i
  }

  /**
    Going down from `j`, but not below `lo`: the index just past the last
    character not in `chars`, or `lo` if there is none.
   */
  function SkipBackward(s: string, chars: set<char>, lo: nat, j: nat): (k: nat)
    requires lo <= j <= |s|
    decreases j
    ensures lo <= k <= j
    ensures forall m :: k <= m < j ==> s[m] in chars
    ensures lo < k ==> s[k - 1] !in chars
  {
    if lo < j && s[j - 1] in chars then SkipBackward(s, chars, lo, j - 1) else j
  }

  /**
    `s.strip(chars)`: what is left after dropping characters from `chars` at
    both ends. It is a slice of `s` with only such characters around it, its
    first and last characters are not in `chars`, and it is empty exactly
    when every character of `s` is in `chars`.
   */
  function Strip(s: string, chars: set<char>): (r: string)
    ensures exists i, j :: 0 <= i <= j <= |s| && r == s[i..j] && AllIn(s[..i], chars) && AllIn(s[j..], chars)
    ensures r == [] <==> AllIn(s, chars)
    ensures r != [] ==> r[0] !in chars && r[|r| - 1] !in chars
  {
    var i := SkipForward(s, chars, 0);
    var j := SkipBackward(s, chars, i, |s|);
    StripBounds(s, chars, i, j);
    s[i..j]
  }

  /** The contract of `Strip`, for the two indices it cuts at. */
  lemma StripBounds(s: string, chars: set<char>, i: nat, j: nat)
    requires i == SkipForward(s, chars, 0) && j == SkipBackward(s, chars, i, |s|)
    ensures exists a, b :: 0 <= a <= b <= |s| && s[i..j] == s[a..b] && AllIn(s[..a], chars) && AllIn(s[b..], chars)
    ensures s[i..j] == [] <==> AllIn(s, chars)
    ensures s[i..j] != [] ==> s[i..j][0] !in chars && s[i..j][|s[i..j]| - 1] !in chars
  {
    PrefixIndices(s, chars, i);
    SuffixIndices(s, chars, j);
    SliceWitness(s, chars, s[i..j], i, j);
    if i < |s| {
      assert s[i..j][0] == s[i] && s[i..j][j - i - 1] == s[j - 1];
    } else {
      assert s[..i] == s;
    }
  }

  lemma SliceWitness(s: string, chars: set<char>, r: string, i: nat, j: nat)
    requires i <= j <= |s| && r == s[i..j] && AllIn(s[..i], chars) && AllIn(s[j..], chars)
    ensures exists i, j :: 0 <= i <= j <= |s| && r == s[i..j] && AllIn(s[..i], chars) && AllIn(s[j..], chars)
  {
  }

  /**
    The contract of `Strip` pins its result down: a slice of `s` that only
    characters from `chars` surround, and that starts and ends outside
    `chars` unless it is empty, is the stripped text.
   */
  lemma StripUnique(s: string, chars: set<char>, i: nat, j: nat)
    requires i <= j <= |s| && AllIn(s[..i], chars) && AllIn(s[j..], chars)
    requires i < j ==> s[i] !in chars && s[j - 1] !in chars
    ensures Strip(s, chars) == s[i..j]
  {
    PrefixIndices(s, chars, i);
    SuffixIndices(s, chars, j);
    var i' := SkipForward(s, chars, 0);
    var j' := SkipBackward(s, chars, i', |s|);
    assert Strip(s, chars) == s[i'..j'];
    if i < j {
      assert i' == i;
      assert j' == j;
    } else {
      assert AllIn(s, chars);
    }
  }

  /** A prefix lies in `chars` exactly when each of its positions of `s` does. */
  lemma PrefixIndices(s: string, chars: set<char>, n: nat)
    requires n <= |s|
    ensures AllIn(s[..n], chars) <==> forall k :: 0 <= k < n ==> s[k] in chars
  {
    if AllIn(s[..n], chars) {
      forall k | 0 <= k < n
        ensures s[k] in chars
      {
        assert s[..n][k] == s[k];
      }
    }
  }

  /** A suffix lies in `chars` exactly when each of its positions of `s` does. */
  lemma SuffixIndices(s: string, chars: set<char>, n: nat)
    requires n <= |s|
    ensures AllIn(s[n..], chars) <==> forall k :: n <= k < |s| ==> s[k] in chars
  {
    if AllIn(s[n..], chars) {
      forall k | n <= k < |s|
        ensures s[k] in chars
      {
        assert s[n..][k - n] == s[k];
      }
    }
  }

  /** Stripping ignores one more trailing character from `chars`. */
  lemma StripIgnoresTrailing(s: string, c: char, chars: set<char>)
    requires c in chars
    ensures Strip(s + [c], chars) == Strip(s, chars)
  {
    var i := SkipForward(s, chars, 0);
    var j := SkipBackward(s, chars, i, |s|);
    assert Strip(s, chars) == s[i..j];
    StripAppended(s, c, chars, i, j);
  }

  /** Where `s` is cut by stripping, `s + [c]` is cut too, for `c` in `chars`. */
  lemma StripAppended(s: string, c: char, chars: set<char>, i: nat, j: nat)
    requires c in chars && i <= j <= |s|
    requires forall m :: 0 <= m < i ==> s[m] in chars
    requires forall m :: j <= m < |s| ==> s[m] in chars
    requires i < j ==> s[i] !in chars && s[j - 1] !in chars
    ensures Strip(s + [c], chars) == s[i..j]
  {
    var t := s + [c];
    assert AllIn(t[..i], chars) && AllIn(t[j..], chars) by {
      PrefixIndices(t, chars, i);
      SuffixIndices(t, chars, j);
    }
    StripUnique(t, chars, i, j);
    assert t[i..j] == s[i..j];
  }
}
