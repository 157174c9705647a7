/**
 * The answer matcher of AnswerCheckerService: decides whether one user
 * answer is correct for one question. It is a pure function of the question,
 * the answer and the fixed table of American/British spelling pairs.
 */
module AnswerChecker {
  import opened Wrappers
  import opened PhpStrings
  import opened Questions

  /** The 33 (American, British) pairs, in table order. */
  const SpellingVariants: seq<(string, string)> := [
    ("color", "colour"),
    ("center", "centre"),
    ("theater", "theatre"),
    ("traveling", "travelling"),
    ("traveled", "travelled"),
    ("traveler", "traveller"),
    ("canceled", "cancelled"),
    ("organize", "organise"),
    ("recognize", "recognise"),
    ("realize", "realise"),
    ("analyze", "analyse"),
    ("favor", "favour"),
    ("neighbor", "neighbour"),
    ("honor", "honour"),
    ("humor", "humour"),
    ("labor", "labour"),
    ("defense", "defence"),
    ("offense", "offence"),
    ("license", "licence"),
    ("practice", "practise"),
    ("catalog", "catalogue"),
    ("dialog", "dialogue"),
    ("program", "programme"),
    ("check", "cheque"),
    ("tire", "tyre"),
    ("gray", "grey"),
    ("jewelry", "jewellery"),
    ("enrollment", "enrolment"),
    ("fulfill", "fulfil"),
    ("skillful", "skilful"),
    ("modeling", "modelling"),
    ("counselor", "counsellor"),
    ("aluminum", "aluminium")
  ]

  /** normalize(): lower-case, trim, then collapse \s runs to one space. */
  function Normalize(text: string): (r: string)
  {
    CollapseSpaces(Trim(Lower(text)))
  }

  /**
   * A normalised string is collapsed, has no upper-case ASCII letter, and
   * keeps the non-\s characters of the lower-cased, trimmed text.
   */
  lemma NormalizeShape(text: string)
    ensures var r := Normalize(text);
      && Collapsed(r)
      && (forall k :: 0 <= k < |r| ==> !IsAsciiUpper(r[k]))
      && NonSpaces(r) == NonSpaces(Trim(Lower(text)))
  {
    CollapseSpacesShape(Trim(Lower(text)));
    NoUpperSurvivesCollapse(Trim(Lower(text)));
  }

  /** An already normal string (lower-case, no trimmable ends, collapsed) is its own normal form. */
  lemma NormalizeKeepsNormal(s: string)
    requires forall k :: 0 <= k < |s| ==> !IsAsciiUpper(s[k])
    requires NoTrimmableEnds(s) && Collapsed(s)
    ensures Normalize(s) == s
  {
    LowerKeepsLowerString(s);
    TrimKeepsBareString(s);
    CollapseFixesCollapsed(s);
  }

  lemma {:induction false} NoUpperSurvivesCollapse(t: string)
    requires forall k :: 0 <= k < |t| ==> !IsAsciiUpper(t[k])
    ensures forall k :: 0 <= k < |CollapseSpaces(t)| ==> !IsAsciiUpper(CollapseSpaces(t)[k])
    decreases |t|
  {
    if |t| > 0 {
      if IsPcreSpace(t[0]) {
        NoUpperSurvivesCollapse(t[SpaceRun(t)..]);
      } else {
        NoUpperSurvivesCollapse(t[1..]);
      }
    }
  }

  /**
   * getWordCount(): 0 for text that trims to nothing, otherwise the number of
   * pieces preg_split('/\s+/') makes of the trimmed text.
   */
  function WordCount(text: string): (n: nat)
    ensures n == 0 <==> Trim(text) == ""
  {
    var t := Trim(text);
    if t == "" then 0 else |SplitOnSpaces(t)|
  }

  /**
   * For text that trims to something starting and ending with a non-\s
   * character, the word count is the number of non-empty, space-free words
   * which, joined by single spaces, give the collapsed text.
   */
  lemma WordCountCountsWords(text: string)
    requires var t := Trim(text); |t| > 0 && !IsPcreSpace(t[0]) && !IsPcreSpace(t[|t| - 1])
    ensures var words := SplitOnSpaces(Trim(text));
      && WordCount(text) == |words|
      && (forall k :: 0 <= k < |words| ==> |words[k]| > 0 && NoSpace(words[k]))
      && Join(" ", words) == CollapseSpaces(Trim(text))
  {
    SplitPiecesNonEmpty(Trim(text));
    JoinSplitIsCollapse(Trim(text));
  }

  /** One table pair, replaced globally in one direction, turns `user` into `correct`. */
  predicate PairMatches(user: string, correct: string, pair: (string, string)) {
    StrReplace(user, pair.0, pair.1) == correct || StrReplace(user, pair.1, pair.0) == correct
  }

  /** matchesSpellingVariant() over a table of pairs from index `i` on, in table order. */
  function VariantFrom(table: seq<(string, string)>, user: string, correct: string, i: nat): bool
    requires i <= |table|
    decreases |table| - i
  {
    if i == |table| then false
    else PairMatches(user, correct, table[i]) || VariantFrom(table, user, correct, i + 1)
  }

  /** The table scan from `i` on succeeds exactly when some pair from `i` on matches. */
  lemma {:induction false} VariantFromIff(table: seq<(string, string)>, user: string, correct: string, i: nat)
    requires i <= |table|
    ensures VariantFrom(table, user, correct, i) <==>
      exists k :: i <= k < |table| && PairMatches(user, correct, table[k])
    decreases |table| - i
  {
    if i < |table| {
      VariantFromIff(table, user, correct, i + 1);
      if PairMatches(user, correct, table[i]) {
        assert i <= i < |table| && PairMatches(user, correct, table[i]);
      }
    }
  }

  /** matchesSpellingVariant(): some pair of the table, in some direction, makes the strings equal. */
  function MatchesSpellingVariant(variants: seq<(string, string)>, user: string, correct: string): bool {
    VariantFrom(variants, user, correct, 0)
  }

  /** One `|`-separated alternative matches by equality or by the spelling rule. */
  predicate AlternativeMatches(variants: seq<(string, string)>, normalizedUser: string, alternative: string) {
    var a := Normalize(Trim(alternative));
    normalizedUser == a || MatchesSpellingVariant(variants, normalizedUser, a)
  }

  /** The verdict of each alternative, in order. */
  function AlternativeVerdicts(variants: seq<(string, string)>, normalizedUser: string, alternatives: seq<string>): (v: seq<bool>)
    ensures |v| == |alternatives|
  {
    seq(|alternatives|, k requires 0 <= k < |alternatives| => AlternativeMatches(variants, normalizedUser, alternatives[k]))
  }

  /** The loop over the alternatives accepts exactly when one of them matches. */
  lemma AnyAlternativeIff(variants: seq<(string, string)>, normalizedUser: string, alternatives: seq<string>)
    ensures true in AlternativeVerdicts(variants, normalizedUser, alternatives) <==>
      exists k :: 0 <= k < |alternatives| && AlternativeMatches(variants, normalizedUser, alternatives[k])
  {
    var v := AlternativeVerdicts(variants, normalizedUser, alternatives);
    if true in v {
      var k :| 0 <= k < |v| && v[k];
      assert AlternativeMatches(variants, normalizedUser, alternatives[k]);
    }
    if exists k :: 0 <= k < |alternatives| && AlternativeMatches(variants, normalizedUser, alternatives[k]) {
      var k :| 0 <= k < |alternatives| && AlternativeMatches(variants, normalizedUser, alternatives[k]);
      assert v[k];
    }
  }

  /** `$question->word_limit && ...`: a null or zero limit means no limit. */
  predicate HasWordLimit(limit: Option<int>) {
    limit.Some? && limit.value != 0
  }

  predicate IsBlank(answer: Option<string>) {
    answer.None? || Trim(answer.value) == ""
  }

  /** Same string once ASCII letters are folded to lower case. */
  predicate SameIgnoringCase(a: string, b: string) {
    |a| == |b| && forall k :: 0 <= k < |a| ==> EqualIgnoringCase(a[k], b[k])
  }

  /** The hyphen rule: equal once every `-` is a space and spaces are re-collapsed. */
  predicate HyphenEquivalent(nu: string, nc: string) {
    CollapseSpaces(StrReplace(nu, "-", " ")) == CollapseSpaces(StrReplace(nc, "-", " "))
  }

  /**
   * checkAnswer(), with the service's spelling table as the parameter
   * `variants`.
   */
  function Check(variants: seq<(string, string)>, q: Question, userAnswer: Option<string>): (r: bool)
    ensures IsBlank(userAnswer) ==> !r
    ensures !IsBlank(userAnswer) && (IsChoice(q.questionType) || IsMapLabeling(q.questionType)) ==>
      (r <==> SameIgnoringCase(Trim(userAnswer.value), Trim(q.correctAnswer)))
  {
    if userAnswer.None? || Trim(userAnswer.value) == "" then false
    else
      var correct := Trim(q.correctAnswer);
      var user := Trim(userAnswer.value);
      LowerEqualIffEqualIgnoringCase(user, correct);
      if q.questionType == Mcq || q.questionType == Matching then Lower(user) == Lower(correct)
      else if q.questionType == MapLabeling then Lower(user) == Lower(correct)
      else if HasWordLimit(q.wordLimit) && WordCount(user) > q.wordLimit.value then false
      else
        var nu := Normalize(user);
        var nc := Normalize(correct);
        if nu == nc then true
        else if HyphenEquivalent(nu, nc) then true
        else if MatchesSpellingVariant(variants, nu, nc) then true
        else '|' in correct && true in AlternativeVerdicts(variants, nu, Explode('|', correct))
  }

  /** checkAnswer() of the service, with its own spelling table. */
  function CheckAnswer(q: Question, userAnswer: Option<string>): bool {
    Check(SpellingVariants, q, userAnswer)
  }

  /** The matcher's text-rule path: not blank, and not a choice or map-labelling type. */
  predicate TakesTextPath(q: Question, userAnswer: Option<string>) {
    !IsBlank(userAnswer) && !IsChoice(q.questionType) && !IsMapLabeling(q.questionType)
  }

  /** For the six valid types, the matcher uses its text rules exactly for the text-based ones. */
  lemma TextPathIffTextBased(q: Question, userAnswer: Option<string>)
    requires q.questionType in ValidTypes && !IsBlank(userAnswer)
    ensures TakesTextPath(q, userAnswer) <==> IsTextBased(q.questionType)
  {
  }

  /** An answer with more words than a non-zero limit is rejected, whatever its content. */
  lemma WordLimitRejects(variants: seq<(string, string)>, q: Question, userAnswer: string)
    requires !IsChoice(q.questionType) && !IsMapLabeling(q.questionType)
    requires HasWordLimit(q.wordLimit) && WordCount(Trim(userAnswer)) > q.wordLimit.value
    ensures !Check(variants, q, Some(userAnswer))
  {
  }

  /**
   * The text rules, both directions: a non-blank answer within its word limit
   * is accepted exactly when its normalised form equals the normalised correct
   * answer, or does so after the hyphen rule, or after one spelling pair in
   * one direction, or, when the correct answer holds `|`, some alternative
   * accepts it by equality or by one spelling pair.
   */
  lemma TextAcceptance(variants: seq<(string, string)>, q: Question, userAnswer: string)
    requires TakesTextPath(q, Some(userAnswer))
    requires !(HasWordLimit(q.wordLimit) && WordCount(Trim(userAnswer)) > q.wordLimit.value)
    ensures var nu := Normalize(Trim(userAnswer));
      var nc := Normalize(Trim(q.correctAnswer));
      var alternatives := Explode('|', Trim(q.correctAnswer));
      Check(variants, q, Some(userAnswer)) <==>
        || nu == nc
        || HyphenEquivalent(nu, nc)
        || (exists k :: 0 <= k < |variants| && PairMatches(nu, nc, variants[k]))
        || ('|' in Trim(q.correctAnswer)
            && exists k :: 0 <= k < |alternatives| && AlternativeMatches(variants, nu, alternatives[k]))
  {
    var correct := Trim(q.correctAnswer);
    var nu := Normalize(Trim(userAnswer));
    var nc := Normalize(correct);
    var r := Check(variants, q, Some(userAnswer));
    AnyAlternativeIff(variants, nu, Explode('|', correct));
    VariantFromIff(variants, nu, nc, 0);
    assert r == (nu == nc || HyphenEquivalent(nu, nc) || VariantFrom(variants, nu, nc, 0)
      || ('|' in correct && true in AlternativeVerdicts(variants, nu, Explode('|', correct))));
  }

  /** Equal normal forms are enough for a text answer within its limit. */
  lemma EqualNormalFormsAccept(variants: seq<(string, string)>, q: Question, userAnswer: string)
    requires TakesTextPath(q, Some(userAnswer))
    requires !(HasWordLimit(q.wordLimit) && WordCount(Trim(userAnswer)) > q.wordLimit.value)
    requires Normalize(Trim(userAnswer)) == Normalize(Trim(q.correctAnswer))
    ensures Check(variants, q, Some(userAnswer))
  {
  }

  /** The hyphen rule is enough for a text answer within its limit. */
  lemma HyphenRuleAccepts(variants: seq<(string, string)>, q: Question, userAnswer: string)
    requires TakesTextPath(q, Some(userAnswer))
    requires !(HasWordLimit(q.wordLimit) && WordCount(Trim(userAnswer)) > q.wordLimit.value)
    requires HyphenEquivalent(Normalize(Trim(userAnswer)), Normalize(Trim(q.correctAnswer)))
    ensures Check(variants, q, Some(userAnswer))
  {
  }

  /** One spelling pair is enough for a text answer within its limit. */
  lemma SpellingPairAccepts(variants: seq<(string, string)>, q: Question, userAnswer: string, k: nat)
    requires TakesTextPath(q, Some(userAnswer))
    requires !(HasWordLimit(q.wordLimit) && WordCount(Trim(userAnswer)) > q.wordLimit.value)
    requires k < |variants| && PairMatches(Normalize(Trim(userAnswer)), Normalize(Trim(q.correctAnswer)), variants[k])
    ensures Check(variants, q, Some(userAnswer))
  {
    TextAcceptance(variants, q, userAnswer);
  }

  /** One matching alternative is enough for a text answer within its limit. */
  lemma AlternativeAccepts(variants: seq<(string, string)>, q: Question, userAnswer: string, k: nat)
    requires TakesTextPath(q, Some(userAnswer))
    requires !(HasWordLimit(q.wordLimit) && WordCount(Trim(userAnswer)) > q.wordLimit.value)
    requires '|' in Trim(q.correctAnswer)
    requires k < |Explode('|', Trim(q.correctAnswer))|
    requires AlternativeMatches(variants, Normalize(Trim(userAnswer)), Explode('|', Trim(q.correctAnswer))[k])
    ensures Check(variants, q, Some(userAnswer))
  {
    TextAcceptance(variants, q, userAnswer);
  }
}
