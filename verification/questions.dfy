/**
 * A listening question as stored, and the type predicates of the
 * ListeningQuestion model.
 */
module Questions {
  import opened Wrappers

  const Mcq: string := "mcq"
  const FillBlank: string := "fill_blank"
  const SentenceCompletion: string := "sentence_completion"
  const Matching: string := "matching"
  const TableCompletion: string := "table_completion"
  const MapLabeling: string := "map_labeling"

  /** The six question types the authoring form accepts, in its order. */
  const ValidTypes: seq<string> := [Mcq, FillBlank, SentenceCompletion, Matching, TableCompletion, MapLabeling]

  /**
   * A stored question. The type is kept as the stored string, because the
   * matcher branches on string comparisons and treats any type it does not
   * recognise like a text type. Options are display text only.
   */
  datatype Question = Question(
    number: int,
    questionType: string,
    questionText: Option<string>,
    optionA: Option<string>,
    optionB: Option<string>,
    optionC: Option<string>,
    optionD: Option<string>,
    wordLimit: Option<int>,
    correctAnswer: string)

  /** The types whose answer is a letter chosen among options: mcq and matching. */
  predicate IsChoice(t: string) {
    t == Mcq || t == Matching
  }

  /** isMapLabeling(): true for map_labeling only. */
  function IsMapLabeling(t: string): (b: bool)
    ensures b ==> !IsChoice(t)
    ensures b ==> t in ValidTypes
  {
    t == MapLabeling
  }

  /**
   * isTextBased(): the three free-text types. None of them is a choice type
   * or map labelling, and all of them are valid types.
   */
  function IsTextBased(t: string): (b: bool)
    ensures b ==> !IsChoice(t) && !IsMapLabeling(t)
    ensures b ==> t in ValidTypes
  {
    t == FillBlank || t == SentenceCompletion || t == TableCompletion
  }

  /** Every valid type is exactly one of: choice, map labelling, text-based. */
  lemma ValidTypesPartition(t: string)
    requires t in ValidTypes
    ensures IsChoice(t) || IsMapLabeling(t) || IsTextBased(t)
    ensures !(IsChoice(t) && IsTextBased(t)) && !(IsMapLabeling(t) && IsTextBased(t))
  {
  }
}
