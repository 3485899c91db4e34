/** The verdict parser at the end of `check_drug_interaction`: it reads the
    free text of the language model and answers `"+1"` (safe together),
    `"-1"` (conflict) or `"0"` (no clear signal), through an ordered chain of
    keyword tests, marker counts and a regular-expression fallback. */
module Verdicts {
  import opened Text

  datatype Verdict = Safe | Conflict | Unknown {
    /** The string `check_drug_interaction` returns for this verdict. */
    function Code(): (s: string) {
      match this
      case Safe => "+1"
      case Conflict => "-1"
      case Unknown => "0"
    }
  }

  /** Prose that overrides every numeric marker. */
  predicate WarnsInProse(text: string) {
    Contains(text, "not safe") || Contains(text, "unsafe") || Contains(text, "conflict")
  }

  /** `text.replace('\n', ' ').replace(' ', '')`: the text with every newline
      and every space removed. */
  function Squeeze(text: string): (r: string)
    ensures ' ' !in r && '\n' !in r
  {
    var spaced := ReplaceChar(text, '\n', ' ');
    assert multiset(spaced)['\n'] == 0;
    DeleteChar(spaced, ' ')
  }

  /** The decision chain, in the source's order. */
  function ParseVerdict(text: string): Verdict {
    var plusOnes := Count(text, "+1");
    var minusOnes := Count(text, "-1");
    if Contains(text, "not safe") || Contains(text, "unsafe") then Conflict
    else if Contains(text, "conflict") then Conflict
    else if plusOnes > 0 && plusOnes > minusOnes && minusOnes > 0 then Safe
    else if minusOnes > 0 && minusOnes > plusOnes && plusOnes > 0 then Conflict
    else if Contains(text, "-1") then Conflict
    else if HasStandaloneOne(Squeeze(text)) then Safe
    else Unknown
  }

  /** The three verdicts have three distinct codes, so the caller's test
      `result == "-1"` singles out `Conflict`. */
  lemma CodesDistinct(v: Verdict, w: Verdict)
    ensures v.Code() == w.Code() <==> v == w
    ensures v.Code() == "-1" <==> v == Conflict
  {
  }

  /** "not safe", "unsafe" or "conflict" anywhere gives `"-1"`, whatever the
      marker counts are. */
  lemma ProseWarningWins(text: string)
    requires WarnsInProse(text)
    ensures ParseVerdict(text) == Conflict
  {
  }

  /** When both markers occur, a strict majority decides and a tie falls
      through to the `"-1"` test. */
  lemma MajorityWhenBothMarkers(text: string)
    requires !WarnsInProse(text)
    requires Count(text, "+1") > 0 && Count(text, "-1") > 0
    ensures Count(text, "+1") > Count(text, "-1") ==> ParseVerdict(text) == Safe
    ensures Count(text, "+1") <= Count(text, "-1") ==> ParseVerdict(text) == Conflict
  {
  }

  /** Exactly when the parser answers `"+1"`: no prose warning, and either
      `"+1"` outnumbers a present `"-1"`, or `"-1"` is absent and the squeezed
      text has a standalone `1`. */
  lemma SafeExactly(text: string)
    ensures ParseVerdict(text) == Safe <==>
      !WarnsInProse(text) &&
      ((Count(text, "+1") > Count(text, "-1") > 0) ||
       (!Contains(text, "-1") && HasStandaloneOne(Squeeze(text))))
  {
  }

  /** Exactly when the parser answers `"0"`: no prose warning, no `"-1"`,
      and no standalone `1` once spaces and newlines are gone. */
  lemma UnknownExactly(text: string)
    ensures ParseVerdict(text) == Unknown <==>
      !WarnsInProse(text) && !Contains(text, "-1") && !HasStandaloneOne(Squeeze(text))
  {
  }

  /** Exactly when the parser answers `"-1"`: a prose warning, or a `"-1"`
      that is not outvoted by more `"+1"`. */
  lemma ConflictExactly(text: string)
    ensures ParseVerdict(text) == Conflict <==>
      WarnsInProse(text) ||
      (Contains(text, "-1") && !(Count(text, "+1") > Count(text, "-1")))
  {
  }

  /** Text without the digit `1` has no standalone `1`. */
  lemma NoOneNoMatch(s: string)
    requires '1' !in s
    ensures !HasStandaloneOne(s)
  {
  }

  /** Text without newlines or spaces is left as it is by `Squeeze`. */
  lemma {:induction false} SqueezeUnspaced(s: string)
    requires ' ' !in s && '\n' !in s
    ensures Squeeze(s) == s
  {
    assert ReplaceChar(s, '\n', ' ') == s;
    DeleteAbsentChar(s, ' ');
  }

  /** Squeezing works piece by piece. */
  lemma SqueezeAppend(s: string, t: string)
    ensures Squeeze(s + t) == Squeeze(s) + Squeeze(t)
  {
    ReplaceCharAppend(s, t, '\n', ' ');
    DeleteCharAppend(ReplaceChar(s, '\n', ' '), ReplaceChar(t, '\n', ' '), ' ');
  }

  /** Squeezing drops a trailing space from text that has no other space
      or newline. */
  lemma SqueezeTrailingSpace(s: string)
    requires ' ' !in s && '\n' !in s
    ensures Squeeze(s + " ") == s
  {
    SqueezeAppend(s, " ");
    SqueezeUnspaced(s);
  }

  /** A text lacking `n`, `u` and `c` carries no prose warning. */
  lemma NoProseLetters(s: string)
    requires 'n' !in s && 'u' !in s && 'c' !in s
    ensures !WarnsInProse(s)
  {
    MissingCharNeverContains(s, "not safe", 'n');
    MissingCharNeverContains(s, "unsafe", 'u');
    MissingCharNeverContains(s, "conflict", 'c');
  }

  /** A bare `"+1"` reaches the regular-expression fallback: the `1` has
      `+` before it and the end of the text after it. */
  lemma BarePlusOneIsSafe()
    ensures ParseVerdict("+1") == Safe
  {
    NoProseLetters("+1");
    MissingCharNeverContains("+1", "-1", '-');
    SqueezeUnspaced("+1");
    assert StandaloneOneAt(Squeeze("+1"), 1);
  }

  lemma PlusOnesOfTwoPlusOneMinus()
    ensures Count("+1 +1 -1", "+1") == 2
  {
    assert "+1 +1 -1" == "+1" + " +1 -1";
    CountMatchFirst("+1", " +1 -1");
    assert " +1 -1" == " " + "+1 -1";
    CountSkip(" ", "+1 -1", "+1");
    assert "+1 -1" == "+1" + " -1";
    CountMatchFirst("+1", " -1");
    MissingCharNeverContains(" -1", "+1", '+');
  }

  lemma MinusOnesOfTwoPlusOneMinus()
    ensures Count("+1 +1 -1", "-1") == 1
  {
    assert "+1 +1 -1" == "+1 +1 " + "-1";
    CountSkip("+1 +1 ", "-1", "-1");
    assert "-1" == "-1" + "";
    CountMatchFirst("-1", "");
  }

  /** Two `"+1"` against one `"-1"`: the majority rule answers `"+1"`. */
  lemma TwoPlusOneMinus()
    ensures ParseVerdict("+1 +1 -1") == Safe
  {
    NoProseLetters("+1 +1 -1");
    PlusOnesOfTwoPlusOneMinus();
    MinusOnesOfTwoPlusOneMinus();
    SafeExactly("+1 +1 -1");
  }

  lemma PlusOnesOfOnePlusTwoMinus()
    ensures Count("+1 -1 -1", "+1") == 1
  {
    assert "+1 -1 -1" == "+1" + " -1 -1";
    CountMatchFirst("+1", " -1 -1");
    MissingCharNeverContains(" -1 -1", "+1", '+');
  }

  lemma MinusOnesOfOnePlusTwoMinus()
    ensures Count("+1 -1 -1", "-1") == 2
  {
    assert "+1 -1 -1" == "+1 " + "-1 -1";
    CountSkip("+1 ", "-1 -1", "-1");
    assert "-1 -1" == "-1" + " -1";
    CountMatchFirst("-1", " -1");
    assert " -1" == " " + "-1";
    CountSkip(" ", "-1", "-1");
    assert "-1" == "-1" + "";
    CountMatchFirst("-1", "");
  }

  /** One `"+1"` against two `"-1"`: the majority rule answers `"-1"`. */
  lemma OnePlusTwoMinus()
    ensures ParseVerdict("+1 -1 -1") == Conflict
  {
    NoProseLetters("+1 -1 -1");
    PlusOnesOfOnePlusTwoMinus();
    MinusOnesOfOnePlusTwoMinus();
    ConflictExactly("+1 -1 -1");
  }

  /** Prose wins without any marker. */
  lemma UnsafeProse()
    ensures ParseVerdict("This combination is unsafe.") == Conflict
  {
    var s := "This combination is unsafe.";
    assert s[20..26] == "unsafe";
    ContainsAt(s, "unsafe", 20);
    ProseWarningWins(s);
  }

  /** The answer is `"0"` once the earlier checks are known to fail on the
      text and the squeezed text is known. */
  lemma UnknownFrom(text: string, squeezed: string)
    requires !WarnsInProse(text) && !Contains(text, "-1")
    requires Squeeze(text) == squeezed && !HasStandaloneOne(squeezed)
    ensures ParseVerdict(text) == Unknown
  {
    UnknownExactly(text);
  }

  /** Text with no marker, no warning and no digit answers `"0"`. */
  lemma NoSignal(text: string)
    requires text == "maybe"
    ensures ParseVerdict(text) == Unknown
  {
    NoProseLetters(text);
    MissingCharNeverContains(text, "-1", '-');
    SqueezeUnspaced(text);
    NoOneNoMatch(text);
    UnknownFrom(text, text);
  }

  lemma SqueezeOneSpaceTwo()
    ensures Squeeze("1 2") == "12"
  {
    assert ReplaceChar("1 2", '\n', ' ') == "1 2";
    assert DeleteChar("1 2", ' ') == "12";
  }

  /** Removing the spaces glues `"1 2"` into `"12"`, which has no standalone
      `1`, so the answer is `"0"`. */
  lemma SpacesGlueDigits()
    ensures ParseVerdict("1 2") == Unknown
  {
    NoProseLetters("1 2");
    MissingCharNeverContains("1 2", "-1", '-');
    SqueezeOneSpaceTwo();
    assert !StandaloneOneAt("12", 0);
    UnknownFrom("1 2", "12");
  }

  lemma SqueezePlusOneSafe()
    ensures Squeeze("+1 safe") == "+1safe"
  {
    assert ReplaceChar("+1 safe", '\n', ' ') == "+1 safe";
    assert DeleteChar("+1 safe", ' ') == "+1safe";
  }

  /** The same gluing hides a `"+1"` that is followed by a word: `"+1 safe"`
      becomes `"+1safe"` and the answer is `"0"`, not `"+1"`. */
  lemma SpacesGlueWords(text: string)
    requires text == "+1 safe"
    ensures ParseVerdict(text) == Unknown
  {
    NoProseLetters(text);
    MissingCharNeverContains(text, "-1", '-');
    SqueezePlusOneSafe();
    GluedHasNoStandaloneOne("+1safe");
    UnknownFrom(text, "+1safe");
  }

  lemma GluedHasNoStandaloneOne(s: string)
    requires s == "+1safe"
    ensures !HasStandaloneOne(s)
  {
    forall i: nat | i < |s|
      ensures !StandaloneOneAt(s, i)
    {
      if i == 1 {
        assert IsWordChar(s[2]);
      } else {
        assert s[i] != '1';
      }
    }
  }
}
