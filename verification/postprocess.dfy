/**
  The text post-processor applied to every recognised utterance before it
  is queued (`processamet_de_text`): spoken Spanish punctuation words are
  turned into punctuation by five replace-all passes, in a fixed order,
  each scanning the output of the previous one.
 */
module TextPostprocessor {
  import opened Strings

  /** A replace-all pass: every occurrence of `phrase` becomes `mark`. */
  datatype Rule = Rule(phrase: string, mark: string)

  /** The five passes, in the order they run. */
  const Rules: seq<Rule> := [
    Rule(" punto y coma ", "; "),
    Rule(" punto ", ". "),
    Rule(" coma ", ", "),
    Rule(" abre paréntesis ", " ("),
    Rule(" cierra paréntesis ", ") ")
  ]

  /** Every pass replaces a non-empty phrase by something strictly shorter. */
  ghost predicate Shrinking(rules: seq<Rule>)
  {
    forall i :: 0 <= i < |rules| ==> 0 <= |rules[i].mark| < |rules[i].phrase|
  }

  /** Some phrase of `rules` occurs in `s`. */
  predicate AnyPhrase(s: string, rules: seq<Rule>)
    requires forall i :: 0 <= i < |rules| ==> |rules[i].phrase| > 0
  {
    exists i :: 0 <= i < |rules| && Contains(s, rules[i].phrase)
  }

  /** Runs the passes of `rules` one after the other, each over the previous output. */
  function Apply(s: string, rules: seq<Rule>): string
    requires forall i :: 0 <= i < |rules| ==> |rules[i].phrase| > 0
    decreases |rules|
  {
    if rules == [] then s
    else Apply(ReplaceAll(s, rules[0].phrase, rules[0].mark), rules[1..])
  }

  /** The same passes, each written as Python's `mark.join(s.split(phrase))`. */
  function ApplyBySplit(s: string, rules: seq<Rule>): string
    requires forall i :: 0 <= i < |rules| ==> |rules[i].phrase| > 0
    decreases |rules|
  {
    if rules == [] then s
    else ApplyBySplit(Join(Split(s, rules[0].phrase), rules[0].mark), rules[1..])
  }

  /**
    The post-processor. Its output is never longer than its input, and it
    returns its input unchanged exactly when none of the five phrases occurs
    in it.
   */
  function PostProcess(text: string): (r: string)
    ensures |r| <= |text|
    ensures r == text <==> !AnyPhrase(text, Rules)
  {
    ApplyShrinks(text, Rules);
    Apply(text, Rules)
  }

  /**
    Passes that shorten what they replace never lengthen the text, and they
    leave it as it is exactly when none of their phrases occurs in it.
   */
  lemma {:induction false} ApplyShrinks(s: string, rules: seq<Rule>)
    requires Shrinking(rules)
    decreases |rules|
    ensures |Apply(s, rules)| <= |s|
    ensures Apply(s, rules) == s <==> !AnyPhrase(s, rules)
  {
    if rules != [] {
      var r := rules[0];
      var s1 := ReplaceAll(s, r.phrase, r.mark);
      ReplaceAllShrinks(s, r.phrase, r.mark);
      ApplyShrinks(s1, rules[1..]);
      if Contains(s, r.phrase) {
        assert AnyPhrase(s, rules) by { assert Contains(s, rules[0].phrase); }
      } else {
        ReplaceAllWithoutMatch(s, r.phrase, r.mark);
        assert AnyPhrase(s, rules) <==> AnyPhrase(s, rules[1..]) by {
          if AnyPhrase(s, rules) {
            var i :| 0 <= i < |rules| && Contains(s, rules[i].phrase);
            assert i > 0 && rules[1..][i - 1] == rules[i];
          }
          if AnyPhrase(s, rules[1..]) {
            var i :| 0 <= i < |rules[1..]| && Contains(s, rules[1..][i].phrase);
            assert rules[i + 1] == rules[1..][i];
          }
        }
      }
    }
  }

  /** The scan-based passes agree with the split/join formulation. */
  lemma {:induction false} ApplyIsApplyBySplit(s: string, rules: seq<Rule>)
    requires forall i :: 0 <= i < |rules| ==> |rules[i].phrase| > 0
    decreases |rules|
    ensures Apply(s, rules) == ApplyBySplit(s, rules)
  {
    if rules != [] {
      ReplaceAllIsJoinOfSplit(s, rules[0].phrase, rules[0].mark);
      ApplyIsApplyBySplit(ReplaceAll(s, rules[0].phrase, rules[0].mark), rules[1..]);
    }
  }

  /**
    The post-processor is five replace-all passes in this order:
    " punto y coma " to "; ", " punto " to ". ", " coma " to ", ",
    " abre paréntesis " to " (" and " cierra paréntesis " to ") ".
   */
  lemma PostProcessIsFivePasses(text: string)
    ensures PostProcess(text) ==
              var t1 := ReplaceAll(text, " punto y coma ", "; ");
              var t2 := ReplaceAll(t1, " punto ", ". ");
              var t3 := ReplaceAll(t2, " coma ", ", ");
              var t4 := ReplaceAll(t3, " abre paréntesis ", " (");
              ReplaceAll(t4, " cierra paréntesis ", ") ")
  {
    var t1 := ReplaceAll(text, " punto y coma ", "; ");
    var t2 := ReplaceAll(t1, " punto ", ". ");
    var t3 := ReplaceAll(t2, " coma ", ", ");
    var t4 := ReplaceAll(t3, " abre paréntesis ", " (");
    assert Apply(text, Rules) == Apply(t1, Rules[1..]);
    assert Apply(t1, Rules[1..]) == Apply(t2, Rules[2..]) by { assert Rules[1..][1..] == Rules[2..]; }
    assert Apply(t2, Rules[2..]) == Apply(t3, Rules[3..]) by { assert Rules[2..][1..] == Rules[3..]; }
    assert Apply(t3, Rules[3..]) == Apply(t4, Rules[4..]) by { assert Rules[3..][1..] == Rules[4..]; }
    assert Apply(t4, Rules[4..]) == ReplaceAll(t4, " cierra paréntesis ", ") ") by { assert Rules[4..][1..] == []; }
  }

  /** Chains five known passes into the post-processor's result. */
  lemma PostProcessByPasses(text: string, t1: string, t2: string, t3: string, t4: string, r: string)
    requires ReplaceAll(text, " punto y coma ", "; ") == t1
    requires ReplaceAll(t1, " punto ", ". ") == t2
    requires ReplaceAll(t2, " coma ", ", ") == t3
    requires ReplaceAll(t3, " abre paréntesis ", " (") == t4
    requires ReplaceAll(t4, " cierra paréntesis ", ") ") == r
    ensures PostProcess(text) == r
  {
    PostProcessIsFivePasses(text);
  }

  /**
    The post-processor is the five passes " punto y coma " to "; ", " punto "
    to ". ", " coma " to ", ", " abre paréntesis " to " (" and
    " cierra paréntesis " to ") ", in that order, each the Python
    `mark.join(text.split(phrase))` of the previous pass's output.
   */
  lemma PostProcessIsFiveSplitJoins(text: string)
    ensures PostProcess(text) ==
              var t1 := Join(Split(text, " punto y coma "), "; ");
              var t2 := Join(Split(t1, " punto "), ". ");
              var t3 := Join(Split(t2, " coma "), ", ");
              var t4 := Join(Split(t3, " abre paréntesis "), " (");
              Join(Split(t4, " cierra paréntesis "), ") ")
  {
    ApplyIsApplyBySplit(text, Rules);
    var t1 := Join(Split(text, " punto y coma "), "; ");
    var t2 := Join(Split(t1, " punto "), ". ");
    var t3 := Join(Split(t2, " coma "), ", ");
    var t4 := Join(Split(t3, " abre paréntesis "), " (");
    assert ApplyBySplit(text, Rules) == ApplyBySplit(t1, Rules[1..]);
    assert ApplyBySplit(t1, Rules[1..]) == ApplyBySplit(t2, Rules[2..]) by { assert Rules[1..][1..] == Rules[2..]; }
    assert ApplyBySplit(t2, Rules[2..]) == ApplyBySplit(t3, Rules[3..]) by { assert Rules[2..][1..] == Rules[3..]; }
    assert ApplyBySplit(t3, Rules[3..]) == ApplyBySplit(t4, Rules[4..]) by { assert Rules[3..][1..] == Rules[4..]; }
    assert ApplyBySplit(t4, Rules[4..]) == Join(Split(t4, " cierra paréntesis "), ") ") by { assert Rules[4..][1..] == []; }
  }

  // The lemmas below describe the post-processor on dictated words: `x`,
  // `y` stand for any words, that is, texts without a space.

  /** A word holds no phrase, since every phrase starts with a space. */
  lemma WordUnchanged(w: string, pat: string, rep: string)
    requires |pat| > 0 && pat[0] == ' ' && ' ' !in w
    ensures ReplaceAll(w, pat, rep) == w
  {
    ReplaceAllKeep(w, [], pat, rep);
    assert w + [] == w;
  }

  /** A space followed by a last word holds no phrase, since every phrase has a second space. */
  lemma LastWordUnchanged(y: string, pat: string, rep: string, k: nat)
    requires ' ' !in y
    requires 0 < k < |pat| && pat[0] == ' ' && pat[k] == ' '
    ensures ReplaceAll(" " + y, pat, rep) == " " + y
  {
    var s := " " + y;
    if k < |s| {
      assert s[k] == y[k - 1] && y[k - 1] in y;
    }
    MismatchAt(s, pat, k);
    ReplaceAllSkip(s, pat, rep);
    assert s[1..] == y;
    WordUnchanged(y, pat, rep);
  }

  /** Two words with one space between them hold no phrase. */
  lemma TwoWordsUnchanged(w: string, y: string, pat: string, rep: string)
    requires ' ' !in w && ' ' !in y
    requires |pat| > 2 && pat[0] == ' ' && pat[|pat| - 1] == ' '
    ensures ReplaceAll(w + " " + y, pat, rep) == w + " " + y
  {
    ReplaceAllKeep(w, " " + y, pat, rep);
    assert w + " " + y == w + (" " + y);
    LastWordUnchanged(y, pat, rep, |pat| - 1);
  }

  /** A space where the pattern does not continue is copied, and the scan moves on. */
  lemma SpaceSkipped(t: string, pat: string, rep: string, k: nat)
    requires 0 < k < |pat| && pat[0] == ' '
    requires k <= |t| ==> t[k - 1] != pat[k]
    ensures ReplaceAll(" " + t, pat, rep) == " " + ReplaceAll(t, pat, rep)
  {
    var s := " " + t;
    if k < |s| {
      assert s[k] == t[k - 1];
    }
    MismatchAt(s, pat, k);
    ReplaceAllSkip(s, pat, rep);
    assert s[1..] == t;
  }

  /**
    " punto y coma " is consumed by the first pass, so neither " punto " nor
    " coma " gets to match inside it: "a punto y coma b" becomes "a; b".
   */
  lemma SemicolonPhraseFirst(x: string, y: string)
    requires ' ' !in x && ' ' !in y
    ensures PostProcess(x + " punto y coma " + y) == x + "; " + y
  {
    var p := " punto y coma ";
    PostProcessIsFivePasses(x + p + y);
    assert ReplaceAll(x + p + y, p, "; ") == x + "; " + y by {
      ReplaceAllKeep(x, p + y, p, "; ");
      assert x + p + y == x + (p + y);
      ReplaceAllMatch(p + y, p, "; ");
      assert (p + y)[|p|..] == y;
      WordUnchanged(y, p, "; ");
    }
    assert x + "; " + y == (x + ";") + " " + y;
    TwoWordsUnchanged(x + ";", y, " punto ", ". ");
    TwoWordsUnchanged(x + ";", y, " coma ", ", ");
    TwoWordsUnchanged(x + ";", y, " abre paréntesis ", " (");
    TwoWordsUnchanged(x + ";", y, " cierra paréntesis ", ") ");
  }

  /**
    Three words with single spaces between them hold no phrase when the
    pattern parts from the text at its `k`-th character after the first space.
   */
  lemma ThreeWordsUnchanged(w: string, v: string, y: string, pat: string, rep: string, k: nat)
    requires ' ' !in w && ' ' !in v && ' ' !in y
    requires |pat| > 2 && pat[0] == ' ' && pat[|pat| - 1] == ' '
    requires 0 < k < |pat| && (k <= |v + " " + y| ==> (v + " " + y)[k - 1] != pat[k])
    ensures ReplaceAll(w + " " + v + " " + y, pat, rep) == w + " " + v + " " + y
  {
    ReplaceAllKeep(w, " " + (v + " " + y), pat, rep);
    assert w + " " + v + " " + y == w + (" " + (v + " " + y));
    SpaceSkipped(v + " " + y, pat, rep, k);
    TwoWordsUnchanged(v, y, pat, rep);
  }

  /** " punto punto " parts from " punto y coma " at its second "p". */
  lemma RepeatedPhraseNoSemicolon(y: string)
    requires ' ' !in y
    ensures ReplaceAll(" punto punto " + y, " punto y coma ", "; ") == " punto punto " + y
  {
    var p := " punto y coma ";
    var t := "punto punto " + y;
    assert ReplaceAll(t, p, "; ") == t by {
      assert t == "punto" + " " + "punto" + " " + y;
      ThreeWordsUnchanged("punto", "punto", y, p, "; ", 8);
    }
    assert ReplaceAll(" " + t, p, "; ") == " " + ReplaceAll(t, p, "; ") by {
      SpaceSkipped(t, p, "; ", 7);
    }
    assert " punto punto " + y == " " + t;
  }

  /** The first pass finds no " punto y coma " in " punto punto ". */
  lemma RepeatedPhraseFirstPass(x: string, y: string)
    requires ' ' !in x && ' ' !in y
    ensures ReplaceAll(x + " punto punto " + y, " punto y coma ", "; ") == x + " punto punto " + y
  {
    ReplaceAllKeep(x, " punto punto " + y, " punto y coma ", "; ");
    assert x + " punto punto " + y == x + (" punto punto " + y);
    RepeatedPhraseNoSemicolon(y);
  }

  /** A phrase right after a word is the first thing a pass replaces. */
  lemma PhraseAfterWord(x: string, pat: string, rep: string, t: string)
    requires |pat| > 0 && pat[0] == ' ' && ' ' !in x
    ensures ReplaceAll(x + (pat + t), pat, rep) == x + (rep + ReplaceAll(t, pat, rep))
  {
    ReplaceAllKeep(x, pat + t, pat, rep);
    ReplaceAllMatch(pat + t, pat, rep);
    assert (pat + t)[|pat|..] == t;
  }

  /**
    A pass seen through equal texts before and after it. Callers hold `s`
    and `u` (and `v` and `r`) as differently grouped concatenations of
    literals; taking them as separate parameters lets a proof rewrite
    through the equalities without the solver regrouping the literals.
   */
  lemma PassThrough(s: string, u: string, pat: string, rep: string, v: string, r: string)
    requires |pat| > 0 && s == u && ReplaceAll(u, pat, rep) == v && v == r
    ensures ReplaceAll(s, pat, rep) == r
  {
  }

  /** The second pass replaces the first " punto " and leaves the word "punto" after it. */
  lemma RepeatedPhraseSecondPass(x: string, y: string)
    requires ' ' !in x && ' ' !in y
    ensures ReplaceAll(x + " punto punto " + y, " punto ", ". ") == x + ". punto " + y
  {
    var p := " punto ";
    var t := "punto " + y;
    assert ReplaceAll(x + (p + t), p, ". ") == x + (". " + t) by {
      PhraseAfterWord(x, p, ". ", t);
      assert t == "punto" + " " + y;
      TwoWordsUnchanged("punto", y, p, ". ");
    }
    assert x + " punto punto " + y == x + (p + t);
    assert x + (". " + t) == x + ". punto " + y;
    PassThrough(x + " punto punto " + y, x + (p + t), p, ". ", x + (". " + t), x + ". punto " + y);
  }

  /** A pass whose phrase does not start with " p" leaves "<x>. punto <y>" alone. */
  lemma PuntoWordUnchanged(x: string, y: string, pat: string, rep: string)
    requires ' ' !in x && ' ' !in y
    requires |pat| > 2 && pat[0] == ' ' && pat[1] != 'p' && pat[|pat| - 1] == ' '
    ensures ReplaceAll(x + ". punto " + y, pat, rep) == x + ". punto " + y
  {
    var t := "punto " + y;
    ReplaceAllKeep(x + ".", " " + t, pat, rep);
    assert x + ". punto " + y == (x + ".") + (" " + t);
    SpaceSkipped(t, pat, rep, 1);
    assert t == "punto" + " " + y;
    TwoWordsUnchanged("punto", y, pat, rep);
  }

  /** " punto punto " loses only its first " punto ": the second one shares its space. */
  lemma RepeatedPhraseOnce(x: string, y: string)
    requires ' ' !in x && ' ' !in y
    ensures PostProcess(x + " punto punto " + y) == x + ". punto " + y
  {
    var s := x + " punto punto " + y;
    var t := x + ". punto " + y;
    RepeatedPhraseFirstPass(x, y);
    RepeatedPhraseSecondPass(x, y);
    PuntoWordLastPasses(x, y);
    PostProcessByPasses(s, s, t, t, t, t);
  }

  /** The last three passes leave "<x>. punto <y>" alone: none of their phrases starts with 'p'. */
  lemma PuntoWordLastPasses(x: string, y: string)
    requires ' ' !in x && ' ' !in y
    ensures ReplaceAll(x + ". punto " + y, " coma ", ", ") == x + ". punto " + y
    ensures ReplaceAll(x + ". punto " + y, " abre paréntesis ", " (") == x + ". punto " + y
    ensures ReplaceAll(x + ". punto " + y, " cierra paréntesis ", ") ") == x + ". punto " + y
  {
    PuntoWordUnchanged(x, y, " coma ", ", ");
    PuntoWordUnchanged(x, y, " abre paréntesis ", " (");
    PuntoWordUnchanged(x, y, " cierra paréntesis ", ") ");
  }

  /** On "<x>. punto <y>" the first pass finds nothing: the word after " punto " is not "y". */
  lemma DotPuntoFirstPass(x: string, y: string)
    requires ' ' !in x && ' ' !in y
    ensures ReplaceAll(x + ". punto " + y, " punto y coma ", "; ") == x + ". punto " + y
  {
    var p := " punto y coma ";
    var t := "punto " + y;
    assert ReplaceAll(t, p, "; ") == t by {
      assert t == "punto" + " " + y;
      TwoWordsUnchanged("punto", y, p, "; ");
    }
    assert ReplaceAll(" " + t, p, "; ") == " " + ReplaceAll(t, p, "; ") by {
      SpaceSkipped(t, p, "; ", 8);
    }
    ReplaceAllKeep(x + ".", " " + t, p, "; ");
    assert x + ". punto " + y == (x + ".") + (" " + t);
  }

  /** On "<x>. punto <y>" the second pass turns " punto " into ". ". */
  lemma DotPuntoSecondPass(x: string, y: string)
    requires ' ' !in x && ' ' !in y
    ensures ReplaceAll(x + ". punto " + y, " punto ", ". ") == x + ".. " + y
  {
    var p := " punto ";
    var w := x + ".";
    assert ReplaceAll(w + (p + y), p, ". ") == w + (". " + y) by {
      assert ' ' !in w;
      PhraseAfterWord(w, p, ". ", y);
      WordUnchanged(y, p, ". ");
    }
    assert x + ". punto " + y == w + (p + y);
    assert w + (". " + y) == x + ".. " + y;
    PassThrough(x + ". punto " + y, w + (p + y), p, ". ", w + (". " + y), x + ".. " + y);
  }

  /** The output of " punto punto " still holds a phrase, which a second run replaces. */
  lemma DotPuntoOnce(x: string, y: string)
    requires ' ' !in x && ' ' !in y
    ensures PostProcess(x + ". punto " + y) == x + ".. " + y
  {
    var s := x + ". punto " + y;
    var t := x + ".. " + y;
    DotPuntoFirstPass(x, y);
    DotPuntoSecondPass(x, y);
    assert t == (x + "..") + " " + y;
    TwoWordsUnchanged(x + "..", y, " coma ", ", ");
    TwoWordsUnchanged(x + "..", y, " abre paréntesis ", " (");
    TwoWordsUnchanged(x + "..", y, " cierra paréntesis ", ") ");
    PostProcessByPasses(s, s, t, t, t, t);
  }

  /**
    The post-processor is not idempotent: running it again on its own output
    can change the text, for any two words around " punto punto ".
   */
  lemma NotIdempotent(x: string, y: string)
    requires ' ' !in x && ' ' !in y
    ensures PostProcess(x + " punto punto " + y) == x + ". punto " + y
    ensures PostProcess(PostProcess(x + " punto punto " + y)) == x + ".. " + y
    ensures PostProcess(PostProcess(x + " punto punto " + y)) != PostProcess(x + " punto punto " + y)
  {
    RepeatedPhraseOnce(x, y);
    DotPuntoOnce(x, y);
    assert |x + ".. " + y| < |x + ". punto " + y|;
  }

  /** A pass whose phrase parts from " cierra paréntesis" at its `k`-th character leaves it alone. */
  lemma ClosingTailUnchanged(pat: string, rep: string, k: nat)
    requires |pat| > 2 && pat[0] == ' ' && pat[|pat| - 1] == ' '
    requires 0 < k < |pat| && k <= 17 && "cierra paréntesis"[k - 1] != pat[k]
    ensures ReplaceAll(" cierra paréntesis", pat, rep) == " cierra paréntesis"
  {
    var t := "cierra paréntesis";
    assert ReplaceAll(t, pat, rep) == t by {
      assert ' ' !in "paréntesis";
      assert t == "cierra" + " " + "paréntesis";
      TwoWordsUnchanged("cierra", "paréntesis", pat, rep);
    }
    assert ReplaceAll(" " + t, pat, rep) == " " + ReplaceAll(t, pat, rep) by {
      SpaceSkipped(t, pat, rep, k);
    }
    assert " cierra paréntesis" == " " + t;
  }

  /** The same after a word. */
  lemma ClosingPassUnchanged(x: string, pat: string, rep: string, k: nat)
    requires ' ' !in x
    requires |pat| > 2 && pat[0] == ' ' && pat[|pat| - 1] == ' '
    requires 0 < k < |pat| && k <= 17 && "cierra paréntesis"[k - 1] != pat[k]
    ensures ReplaceAll(x + " cierra paréntesis", pat, rep) == x + " cierra paréntesis"
  {
    ReplaceAllKeep(x, " cierra paréntesis", pat, rep);
    ClosingTailUnchanged(pat, rep, k);
  }

  /**
    A phrase at the very end of the text, with no space after it, is not
    replaced: every phrase ends with a space.
   */
  lemma TrailingPhraseKept(x: string)
    requires ' ' !in x
    ensures PostProcess(x + " cierra paréntesis") == x + " cierra paréntesis"
  {
    var s := x + " cierra paréntesis";
    assert ReplaceAll(s, " punto y coma ", "; ") == s by {
      ClosingPassUnchanged(x, " punto y coma ", "; ", 1);
    }
    assert ReplaceAll(s, " punto ", ". ") == s by {
      ClosingPassUnchanged(x, " punto ", ". ", 1);
    }
    assert ReplaceAll(s, " coma ", ", ") == s by {
      ClosingPassUnchanged(x, " coma ", ", ", 2);
    }
    assert ReplaceAll(s, " abre paréntesis ", " (") == s by {
      ClosingPassUnchanged(x, " abre paréntesis ", " (", 1);
    }
    assert ReplaceAll(s, " cierra paréntesis ", ") ") == s by {
      ReplaceAllKeep(x, " cierra paréntesis", " cierra paréntesis ", ") ");
      ReplaceAllShort(" cierra paréntesis", " cierra paréntesis ", ") ");
    }
    PostProcessByPasses(s, s, s, s, s, s);
  }

  /** The words "cierra paréntesis" hold exactly one space, at index 6. */
  lemma ClosingSpace(j: nat)
    requires j < 17 && j != 6
    ensures "cierra paréntesis"[j] != ' '
  {
    var t := "cierra paréntesis";
    assert t == "cierra" + [' '] + "paréntesis";
    if j < 6 {
      assert t[j] == "cierra"[j];
    } else {
      assert t[j] == "paréntesis"[j - 7];
    }
  }

  /**
    A phrase ending in a space, whose `k`-th character from the end parts
    from "cierra" read backwards, cannot reach from `u` into a trailing
    "cierra paréntesis".
   */
  lemma NotIntoClosing(u: string, pat: string, k: nat, i: int)
    requires 0 < k <= 6 && k < |pat| && pat[|pat| - 1] == ' '
    requires pat[|pat| - 1 - k] != "cierra paréntesis"[6 - k]
    requires i + |pat| > |u|
    ensures !OccursAt(u + "cierra paréntesis", pat, i)
  {
    var t := "cierra paréntesis";
    var s := u + t;
    var e := i + |pat| - 1;
    if 0 <= i && e < |s| {
      assert s[i..i + |pat|][|pat| - 1] == s[e];
      assert s[e] == t[e - |u|];
      if e - |u| == 6 {
        assert s[i..i + |pat|][|pat| - 1 - k] == s[e - k];
        assert s[e - k] == t[6 - k];
      } else {
        ClosingSpace(e - |u|);
      }
    }
  }

  lemma ClosingOutOfReach(u: string, pat: string, k: nat)
    requires 0 < k <= 6 && k < |pat| && pat[|pat| - 1] == ' '
    requires pat[|pat| - 1 - k] != "cierra paréntesis"[6 - k]
    ensures EndsBefore(u + "cierra paréntesis", pat, |u|)
  {
    forall i | OccursAt(u + "cierra paréntesis", pat, i)
      ensures i + |pat| <= |u|
    {
      if i + |pat| > |u| {
        NotIntoClosing(u, pat, k, i);
      }
    }
  }

  /** One pass over a text ending in "cierra paréntesis" works on what precedes it. */
  lemma ClosingPassTail(u: string, pat: string, rep: string, k: nat)
    requires 0 < k <= 6 && k < |pat| && pat[|pat| - 1] == ' '
    requires pat[|pat| - 1 - k] != "cierra paréntesis"[6 - k]
    ensures ReplaceAll(u + "cierra paréntesis", pat, rep) == ReplaceAll(u, pat, rep) + "cierra paréntesis"
  {
    ClosingOutOfReach(u, pat, k);
    ReplaceAllBeforeTail(u, "cierra paréntesis", pat, rep);
  }

  /**
    Text that ends in the words "cierra paréntesis", with no space after
    them, keeps those words: every phrase ends with a space, so none reaches
    into them, and the text before them is processed as if they were absent.
   */
  lemma TrailingClosingKept(u: string)
    ensures PostProcess(u + "cierra paréntesis") == PostProcess(u) + "cierra paréntesis"
  {
    var t := "cierra paréntesis";
    var t1 := ReplaceAll(u, " punto y coma ", "; ");
    var t2 := ReplaceAll(t1, " punto ", ". ");
    var t3 := ReplaceAll(t2, " coma ", ", ");
    var t4 := ReplaceAll(t3, " abre paréntesis ", " (");
    var r := ReplaceAll(t4, " cierra paréntesis ", ") ");
    PostProcessByPasses(u, t1, t2, t3, t4, r);
    ClosingPassTail(u, " punto y coma ", "; ", 2);
    ClosingPassTail(t1, " punto ", ". ", 1);
    ClosingPassTail(t2, " coma ", ", ", 2);
    ClosingPassTail(t3, " abre paréntesis ", " (", 1);
    ClosingPassTail(t4, " cierra paréntesis ", ") ", 1);
    PostProcessByPasses(u + t, t1 + t, t2 + t, t3 + t, t4 + t, r + t);
  }
}
