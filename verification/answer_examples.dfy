/**
 * Consequences of the answer matcher for whole families of answers: letters
 * of a choice, one- and two-word answers, hyphenated words, the spelling
 * pairs and `|`-separated alternatives.
 */
module AnswerExamples {
  import opened Wrappers
  import opened PhpStrings
  import opened Questions
  import opened AnswerChecker

  /** A question of the given type with only what the matcher reads. */
  function Make(questionType: string, correctAnswer: string, wordLimit: Option<int>): Question {
    Question(1, questionType, Some("?"), None, None, None, None, wordLimit, correctAnswer)
  }

  /** A non-empty run of lower-case ASCII letters. */
  predicate IsWord(w: string) {
    |w| > 0 && forall k :: 0 <= k < |w| ==> 'a' <= w[k] <= 'z'
  }

  /** A word is its own trimmed and normalised form. */
  lemma WordIsNormal(w: string)
    requires IsWord(w)
    ensures Trim(w) == w && Normalize(w) == w
  {
    TrimKeepsBareString(w);
    NormalizeKeepsNormal(w);
  }

  /** Two words joined by one space, `-` or `|` are their own trimmed and normalised form. */
  lemma JoinedWordsAreNormal(a: string, b: string, sep: char)
    requires IsWord(a) && IsWord(b)
    requires sep == ' ' || sep == '-' || sep == '|'
    ensures Trim(a + [sep] + b) == a + [sep] + b
    ensures Normalize(a + [sep] + b) == a + [sep] + b
  {
    var s := a + [sep] + b;
    assert forall k :: 0 <= k < |a| ==> s[k] == a[k];
    assert forall k :: |a| < k < |s| ==> s[k] == b[k - |a| - 1];
    TrimKeepsBareString(s);
    NormalizeKeepsNormal(s);
  }

  /** Two words separated by one space count as two words. */
  lemma TwoWordsCount(a: string, b: string)
    requires IsWord(a) && IsWord(b)
    ensures WordCount(a + " " + b) == 2
  {
    JoinedWordsAreNormal(a, b, ' ');
    SplitFirstWord(a, b);
    SplitSpaceFree(b);
  }

  /** Choice answers compare case-insensitively, whatever the spelling table. */
  lemma ChoiceIgnoresCase(variants: seq<(string, string)>)
    ensures Check(variants, Make(Mcq, "B", None), Some("b")) == true
  {
  }

  /** Choice answers are trimmed before they are compared. */
  lemma ChoiceIgnoresPadding(variants: seq<(string, string)>)
    ensures Check(variants, Make(Mcq, "B", None), Some(" b ")) == true
  {
  }

  /** A different letter is wrong. */
  lemma ChoiceRejectsOtherLetter(variants: seq<(string, string)>)
    ensures !Check(variants, Make(Mcq, "B", None), Some("c"))
  {
  }

  /** An empty answer never matches, even an empty correct answer. */
  lemma EmptyNeverMatches(variants: seq<(string, string)>)
    ensures !Check(variants, Make(FillBlank, "", None), Some(""))
    ensures !Check(variants, Make(FillBlank, "", None), None)
  {
  }

  /** A two-word answer passes a limit of two, even when it is the correct answer. */
  lemma TwoWordsWithinLimit(variants: seq<(string, string)>, a: string, b: string)
    requires IsWord(a) && IsWord(b)
    ensures Check(variants, Make(FillBlank, a + " " + b, Some(2)), Some(a + " " + b)) == true
  {
    JoinedWordsAreNormal(a, b, ' ');
    TwoWordsCount(a, b);
    EqualNormalFormsAccept(variants, Make(FillBlank, a + " " + b, Some(2)), a + " " + b);
  }

  /** A limit of zero is no limit. */
  lemma ZeroLimitIsNoLimit(variants: seq<(string, string)>, a: string, b: string)
    requires IsWord(a) && IsWord(b)
    ensures Check(variants, Make(FillBlank, a + " " + b, Some(0)), Some(a + " " + b)) == true
  {
    JoinedWordsAreNormal(a, b, ' ');
    EqualNormalFormsAccept(variants, Make(FillBlank, a + " " + b, Some(0)), a + " " + b);
  }

  /** A two-word answer fails a limit of one, even when it is the correct answer. */
  lemma TwoWordsOverLimit(variants: seq<(string, string)>, a: string, b: string)
    requires IsWord(a) && IsWord(b)
    ensures !Check(variants, Make(FillBlank, a + " " + b, Some(1)), Some(a + " " + b))
  {
    JoinedWordsAreNormal(a, b, ' ');
    TwoWordsCount(a, b);
    WordLimitRejects(variants, Make(FillBlank, a + " " + b, Some(1)), a + " " + b);
  }

  /** Every `-` of `a-b` replaced by a space gives `a b`; `a b` has no `-` to replace. */
  lemma HyphenReplacement(a: string, b: string)
    requires IsWord(a) && IsWord(b)
    ensures StrReplace(a + "-" + b, "-", " ") == a + " " + b
    ensures StrReplace(a + " " + b, "-", " ") == a + " " + b
  {
    var h, s := a + "-" + b, a + " " + b;
    StrReplaceChar(h, '-', ' ');
    assert forall k :: 0 <= k < |a| ==> h[k] == a[k] && s[k] == a[k];
    assert forall k :: |a| < k < |h| ==> h[k] == b[k - |a| - 1] && s[k] == b[k - |a| - 1];
    assert StrReplace(h, "-", " ") == s;
    StrReplaceAbsentChar(s, '-', ' ');
  }

  /** A space between two words is accepted for a hyphen. */
  lemma SpaceForHyphen(variants: seq<(string, string)>, a: string, b: string)
    requires IsWord(a) && IsWord(b)
    ensures Check(variants, Make(SentenceCompletion, a + "-" + b, None), Some(a + " " + b)) == true
  {
    JoinedWordsAreNormal(a, b, ' ');
    JoinedWordsAreNormal(a, b, '-');
    HyphenReplacement(a, b);
    HyphenRuleAccepts(variants, Make(SentenceCompletion, a + "-" + b, None), a + " " + b);
  }

  /** A hyphen between two words is accepted for a space. */
  lemma HyphenForSpace(variants: seq<(string, string)>, a: string, b: string)
    requires IsWord(a) && IsWord(b)
    ensures Check(variants, Make(SentenceCompletion, a + " " + b, None), Some(a + "-" + b)) == true
  {
    JoinedWordsAreNormal(a, b, ' ');
    JoinedWordsAreNormal(a, b, '-');
    HyphenReplacement(a, b);
    HyphenRuleAccepts(variants, Make(SentenceCompletion, a + " " + b, None), a + "-" + b);
  }

  /** Replacing a whole string by another gives the other. */
  lemma ReplaceWhole(s: string, to: string)
    requires |s| > 0
    ensures StrReplace(s, s, to) == to
  {
    assert s[..|s|] == s;
    assert s[|s|..] == [];
  }

  /** Each spelling pair of single words is accepted in both directions. */
  lemma SpellingPairAccepted(variants: seq<(string, string)>, k: nat)
    requires k < |variants|
    requires IsWord(variants[k].0) && IsWord(variants[k].1)
    ensures Check(variants, Make(TableCompletion, variants[k].0, None), Some(variants[k].1)) == true
    ensures Check(variants, Make(TableCompletion, variants[k].1, None), Some(variants[k].0)) == true
  {
    WordIsNormal(variants[k].0);
    WordIsNormal(variants[k].1);
    ReplaceWhole(variants[k].0, variants[k].1);
    ReplaceWhole(variants[k].1, variants[k].0);
    NormalPairAccepted(variants, TableCompletion, k, variants[k].1, variants[k].0);
    NormalPairAccepted(variants, TableCompletion, k, variants[k].0, variants[k].1);
  }

  /** The service accepts "colour" for "color" and back. */
  lemma ColourAccepted()
    ensures CheckAnswer(Make(TableCompletion, "color", None), Some("colour")) == true
    ensures CheckAnswer(Make(TableCompletion, "colour", None), Some("color")) == true
  {
    assert SpellingVariants[0] == ("color", "colour");
    SpellingPairAccepted(SpellingVariants, 0);
  }

  /** Replacing `p` in `p` followed by text without `p` replaces only the front. */
  lemma ReplaceFront(p: string, to: string, w: string)
    requires |p| > 0 && !Occurs(p, w)
    ensures StrReplace(p + w, p, to) == to + w
  {
    var s := p + w;
    assert s[..|p|] == p && s[|p|..] == w;
    StrReplaceAbsent(w, p, to);
  }

  /**
   * Replacement fires inside longer words: a pair's word followed by more
   * letters is accepted for the other word followed by the same letters,
   * in any text question without a limit.
   */
  lemma SpellingInsideWord(variants: seq<(string, string)>, t: string, k: nat, w: string)
    requires !IsChoice(t) && !IsMapLabeling(t)
    requires k < |variants|
    requires IsWord(variants[k].0) && IsWord(variants[k].1) && IsWord(w)
    requires !Occurs(variants[k].0, w)
    ensures Check(variants, Make(t, variants[k].1 + w, None), Some(variants[k].0 + w)) == true
  {
    var (p0, p1) := variants[k];
    PairInsideWord(p0, p1, w);
    NormalPairAccepted(variants, t, k, p0 + w, p1 + w);
  }

  /** A pair's word followed by letters without it turns into the other word followed by the same letters. */
  lemma PairInsideWord(p0: string, p1: string, w: string)
    requires IsWord(p0) && IsWord(p1) && IsWord(w)
    requires !Occurs(p0, w)
    ensures Trim(p0 + w) == p0 + w && Normalize(p0 + w) == p0 + w && p0 + w != ""
    ensures Trim(p1 + w) == p1 + w && Normalize(p1 + w) == p1 + w
    ensures PairMatches(p0 + w, p1 + w, (p0, p1))
  {
    ConcatenatedWordIsNormal(p0, w);
    ConcatenatedWordIsNormal(p1, w);
    ReplaceFront(p0, p1, w);
  }

  /** Two words written together are their own trimmed and normalised form. */
  lemma ConcatenatedWordIsNormal(a: string, b: string)
    requires IsWord(a) && IsWord(b)
    ensures Trim(a + b) == a + b && Normalize(a + b) == a + b && a + b != ""
  {
    assert IsWord(a + b);
    WordIsNormal(a + b);
  }

  /**
   * A normal, non-empty answer that a spelling pair turns into the normal
   * correct answer of a text question without a limit is accepted.
   */
  lemma NormalPairAccepted(variants: seq<(string, string)>, t: string, k: nat, u: string, c: string)
    requires !IsChoice(t) && !IsMapLabeling(t)
    requires k < |variants|
    requires Trim(u) == u && Normalize(u) == u && u != ""
    requires Trim(c) == c && Normalize(c) == c
    requires PairMatches(u, c, variants[k])
    ensures Check(variants, Make(t, c, None), Some(u)) == true
  {
    SpellingPairAccepts(variants, Make(t, c, None), u, k);
  }

  /** The service accepts "tired" for "tyred". */
  lemma TiredForTyred()
    ensures CheckAnswer(Make(FillBlank, "tyred", None), Some("tired")) == true
  {
    assert SpellingVariants[24] == ("tire", "tyre");
    assert IsWord("tire") && IsWord("tyre") && IsWord("d");
    SpellingInsideWord(SpellingVariants, FillBlank, 24, "d");
    assert "tire" + "d" == "tired" && "tyre" + "d" == "tyred";
  }

  /** `x|y` splits into its two words. */
  lemma AlternativesOfTwoWords(x: string, y: string)
    requires IsWord(x) && IsWord(y)
    ensures Trim(x + "|" + y) == x + "|" + y && '|' in x + "|" + y
    ensures Explode('|', Trim(x + "|" + y)) == [x, y]
  {
    JoinedWordsAreNormal(x, y, '|');
    ExplodeTwo('|', x, y);
    assert (x + "|" + y)[|x|] == '|';
  }

  /**
   * A normal, non-empty answer matching one `|`-separated alternative of a
   * text question without a limit is accepted.
   */
  lemma NormalAlternativeAccepted(variants: seq<(string, string)>, t: string, c: string, u: string, k: nat)
    requires !IsChoice(t) && !IsMapLabeling(t)
    requires Trim(u) == u && Normalize(u) == u && u != ""
    requires '|' in Trim(c) && k < |Explode('|', Trim(c))|
    requires AlternativeMatches(variants, u, Explode('|', Trim(c))[k])
    ensures Check(variants, Make(t, c, None), Some(u)) == true
  {
    AlternativeAccepts(variants, Make(t, c, None), u, k);
  }

  /** The first side of `x|y` is accepted on its own. */
  lemma FirstAlternative(variants: seq<(string, string)>, x: string, y: string)
    requires IsWord(x) && IsWord(y)
    ensures Check(variants, Make(FillBlank, x + "|" + y, None), Some(x)) == true
  {
    AlternativesOfTwoWords(x, y);
    WordIsNormal(x);
    NormalAlternativeAccepted(variants, FillBlank, x + "|" + y, x, 0);
  }

  /** The second side of `x|y` is accepted on its own. */
  lemma SecondAlternative(variants: seq<(string, string)>, x: string, y: string)
    requires IsWord(x) && IsWord(y)
    ensures Check(variants, Make(FillBlank, x + "|" + y, None), Some(y)) == true
  {
    AlternativesOfTwoWords(x, y);
    WordIsNormal(y);
    NormalAlternativeAccepted(variants, FillBlank, x + "|" + y, y, 1);
  }
}
