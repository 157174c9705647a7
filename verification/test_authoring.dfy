/**
 * Test authoring in the admin ListeningTestController: the validation of a
 * new test's four parts, and how `store` and `update` turn the decoded parts
 * payload into stored parts and globally numbered questions.
 *
 * The payload is taken as already decoded from JSON; a missing key is
 * `None`. Uploaded files are maps from part number to the path the upload
 * was stored under.
 */
module TestAuthoring {
  import opened Wrappers
  import opened Questions
  import PhpStrings

  /** The word limit a text question gets when the payload gives none. */
  const DefaultWordLimit: int := 3
  /** The number of parts a test must have. */
  const RequiredParts: int := 4

  /** One question of the payload, each key possibly missing. */
  datatype QuestionInput = QuestionInput(
    questionType: Option<string>,
    questionText: Option<string>,
    optionA: Option<string>,
    optionB: Option<string>,
    optionC: Option<string>,
    optionD: Option<string>,
    wordLimit: Option<int>,
    correctAnswer: Option<string>)

  /** One part of the payload; the existing paths are only read by `update`. */
  datatype PartInput = PartInput(
    title: Option<string>,
    instructions: Option<string>,
    questions: Option<seq<QuestionInput>>,
    existingAudioPath: Option<string>,
    existingImagePath: Option<string>)

  /** A stored listening_parts row with its questions, in question order. */
  datatype StoredPart = StoredPart(
    partNumber: int,
    title: string,
    instructions: string,
    audioPath: string,
    imagePath: Option<string>,
    questions: seq<Question>)

  /** A stored listening test with its parts, in part order. */
  datatype TestRecord = TestRecord(title: string, description: Option<string>, isActive: bool, parts: seq<StoredPart>)

  /**
   * The 422 refusals of `store`, with the 1-based part and question numbers
   * of their messages. `MissingKey` is the undefined-key error raised when
   * a key read without a default (a part's title or instructions, a
   * question's text or correct answer) is missing; it aborts the
   * transaction and rolls the whole `store` or `update` back.
   */
  datatype AuthoringError =
    | PartCountNotFour
    | PartIncomplete(part: int)
    | AudioMissing(part: int)
    | NoQuestions(part: int)
    | InvalidType(part: int, question: int)
    | QuestionIncomplete(part: int, question: int)
    | OptionsMissing(part: int, question: int)
    | MissingKey

  /** PHP `empty()` on an optional string: missing, `""` and `"0"` are empty. */
  predicate IsEmpty(v: Option<string>) {
    v.None? || PhpStrings.IsFalsy(v.value)
  }

  /** `$q['question_type'] ?? 'mcq'`. */
  function TypeOf(q: QuestionInput): string {
    q.questionType.GetOr(Mcq)
  }

  /** The question keys the insert reads without a default: `question_text` and `correct_answer`. */
  predicate HasReadKeys(q: QuestionInput) {
    q.questionText.Some? && q.correctAnswer.Some?
  }

  /** `$part['questions'] ?? []`. */
  function QuestionsOf(p: PartInput): seq<QuestionInput> {
    p.questions.GetOr([])
  }

  /** The checks on one question, in order: type, then text and answer, then options of choice types. */
  function QuestionError(q: QuestionInput, part: int, number: int): (r: Option<AuthoringError>)
    ensures r.None? <==>
      && TypeOf(q) in ValidTypes
      && !IsEmpty(q.questionText) && !IsEmpty(q.correctAnswer)
      && (IsChoice(TypeOf(q)) ==> !IsEmpty(q.optionA) && !IsEmpty(q.optionB) && !IsEmpty(q.optionC))
    ensures TypeOf(q) !in ValidTypes ==> r == Some(InvalidType(part, number))
  {
    var t := TypeOf(q);
    if t !in ValidTypes then Some(InvalidType(part, number))
    else if IsEmpty(q.questionText) || IsEmpty(q.correctAnswer) then Some(QuestionIncomplete(part, number))
    else if IsChoice(t) && (IsEmpty(q.optionA) || IsEmpty(q.optionB) || IsEmpty(q.optionC)) then Some(OptionsMissing(part, number))
    else None
  }

  /** The first failing question from index `i` on; question numbers in messages are 1-based. */
  function FirstQuestionError(qs: seq<QuestionInput>, part: int, i: nat): (r: Option<AuthoringError>)
    requires i <= |qs|
    ensures r.None? <==> forall k :: i <= k < |qs| ==> QuestionError(qs[k], part, k + 1).None?
    ensures r.Some? ==> exists k :: i <= k < |qs| && QuestionError(qs[k], part, k + 1) == r &&
                                   forall j :: i <= j < k ==> QuestionError(qs[j], part, j + 1).None?
    decreases |qs| - i
  {
    if i == |qs| then None
    else
      var e := QuestionError(qs[i], part, i + 1);
      if e.Some? then e else FirstQuestionError(qs, part, i + 1)
  }

  /** The checks on one part, in order: title and instructions, audio upload, questions. */
  function PartError(p: PartInput, part: int, audio: map<int, string>): Option<AuthoringError> {
    if IsEmpty(p.title) || IsEmpty(p.instructions) then Some(PartIncomplete(part))
    else if part !in audio then Some(AudioMissing(part))
    else if |QuestionsOf(p)| < 1 then Some(NoQuestions(part))
    else FirstQuestionError(QuestionsOf(p), part, 0)
  }

  /** The first failing part from index `i` on; part numbers in messages are 1-based. */
  function FirstPartError(parts: seq<PartInput>, audio: map<int, string>, i: nat): (r: Option<AuthoringError>)
    requires i <= |parts|
    ensures r.None? <==> forall k :: i <= k < |parts| ==> PartError(parts[k], k + 1, audio).None?
    ensures r.Some? ==> exists k :: i <= k < |parts| && PartError(parts[k], k + 1, audio) == r &&
                                   forall j :: i <= j < k ==> PartError(parts[j], j + 1, audio).None?
    decreases |parts| - i
  {
    if i == |parts| then None
    else
      var e := PartError(parts[i], i + 1, audio);
      if e.Some? then e else FirstPartError(parts, audio, i + 1)
  }

  /**
   * The validation of `store`: `None` when the payload does not decode to a
   * list, or decodes to one that does not have exactly four parts, is
   * refused first; then the first failing part is reported.
   */
  function ValidateStore(parts: Option<seq<PartInput>>, audio: map<int, string>): (r: Option<AuthoringError>)
    ensures parts.None? || |parts.value| != RequiredParts ==> r == Some(PartCountNotFour)
    ensures r.None? <==>
      (parts.Some? && |parts.value| == RequiredParts &&
       forall k :: 0 <= k < RequiredParts ==> PartError(parts.value[k], k + 1, audio).None?)
  {
    if parts.None? || |parts.value| != RequiredParts then Some(PartCountNotFour)
    else FirstPartError(parts.value, audio, 0)
  }

  /**
   * The stored question for one payload question: the type defaults to mcq,
   * missing options are null, and a word limit (3 unless given) is kept only
   * for the three text types. A missing text or correct answer aborts.
   */
  function BuildQuestion(q: QuestionInput, number: int): (r: Result<Question, AuthoringError>)
    ensures r.Failure? <==> !HasReadKeys(q)
    ensures r.Success? ==> r.value.number == number && r.value.questionType == TypeOf(q)
    ensures r.Success? ==> r.value.correctAnswer == q.correctAnswer.value && r.value.questionText == q.questionText
    ensures r.Success? ==>
      r.value.optionA == q.optionA && r.value.optionB == q.optionB && r.value.optionC == q.optionC && r.value.optionD == q.optionD
    ensures r.Success? ==> (r.value.wordLimit.Some? <==> IsTextBased(TypeOf(q)))
    ensures r.Success? && IsTextBased(TypeOf(q)) && q.wordLimit.None? ==> r.value.wordLimit == Some(DefaultWordLimit)
    ensures r.Success? && IsTextBased(TypeOf(q)) && q.wordLimit.Some? ==> r.value.wordLimit == q.wordLimit
  {
    if q.questionText.None? || q.correctAnswer.None? then Failure(MissingKey)
    else
      var t := TypeOf(q);
      Success(Question(
        number, t, q.questionText, q.optionA, q.optionB, q.optionC, q.optionD,
        if IsTextBased(t) then Some(q.wordLimit.GetOr(DefaultWordLimit)) else None,
        q.correctAnswer.value))
  }

  /** The questions of one part, numbered on from `last`, the number given before them. */
  function BuildQuestions(qs: seq<QuestionInput>, last: int): (r: Result<seq<Question>, AuthoringError>)
    ensures r.Success? <==> forall k :: 0 <= k < |qs| ==> HasReadKeys(qs[k])
    ensures r.Failure? ==> r.error == MissingKey
    ensures r.Success? ==> |r.value| == |qs|
    decreases |qs|
  {
    if |qs| == 0 then Success([])
    else
      var first :- BuildQuestion(qs[0], last + 1);
      var rest :- BuildQuestions(qs[1..], last + 1);
      Success([first] + rest)
  }

  /** The `k`-th built question is the `k`-th payload question built with number `last + k + 1`. */
  lemma {:induction false} BuildQuestionsAt(qs: seq<QuestionInput>, last: int, k: nat)
    requires BuildQuestions(qs, last).Success? && k < |qs|
    ensures BuildQuestion(qs[k], last + k + 1) == Success(BuildQuestions(qs, last).value[k])
    decreases k
  {
    if k > 0 {
      BuildQuestionsAt(qs[1..], last + 1, k - 1);
      assert qs[1..][k - 1] == qs[k];
    }
  }

  /** A part the insert can read: title, instructions, and every question's text and answer present. */
  predicate Storable(p: PartInput) {
    && p.title.Some? && p.instructions.Some?
    && forall k :: 0 <= k < |QuestionsOf(p)| ==> HasReadKeys(QuestionsOf(p)[k])
  }

  /** The questions of stored parts, concatenated in part order. */
  function AllQuestions(parts: seq<StoredPart>): seq<Question> {
    if |parts| == 0 then [] else parts[0].questions + AllQuestions(parts[1..])
  }

  /** The number of payload questions in the parts from index `i` up to, not including, `n`. */
  function QuestionsBetween(parts: seq<PartInput>, i: nat, n: nat): nat
    requires i <= n <= |parts|
    decreases n - i
  {
    if i == n then 0 else |QuestionsOf(parts[i])| + QuestionsBetween(parts, i + 1, n)
  }

  /** The total number of payload questions of the parts. */
  function QuestionTotal(parts: seq<PartInput>): nat {
    if |parts| == 0 then 0 else |QuestionsOf(parts[0])| + QuestionTotal(parts[1..])
  }

  /**
   * Where a part's files come from. `store` takes the upload (checked to be
   * present) and the image upload or null. `update` takes an upload when
   * there is one, else the payload's existing path, `""` and null by default.
   */
  function AudioPathFor(p: PartInput, part: int, audio: map<int, string>, isUpdate: bool): string {
    if part in audio then audio[part]
    else if isUpdate then p.existingAudioPath.GetOr("")
    else ""
  }

  function ImagePathFor(p: PartInput, part: int, images: map<int, string>, isUpdate: bool): Option<string> {
    if part in images then Some(images[part])
    else if isUpdate then p.existingImagePath
    else None
  }

  /**
   * `stored` is what the insert writes for payload part `p` under part
   * number `number` when the questions before it number `offset`: that
   * part's title, instructions and files, and its payload questions
   * numbered on from `offset`.
   */
  predicate PartBuiltFrom(stored: StoredPart, p: PartInput, number: int, offset: int, audio: map<int, string>, images: map<int, string>, isUpdate: bool) {
    && stored.partNumber == number
    && p.title == Some(stored.title)
    && p.instructions == Some(stored.instructions)
    && stored.audioPath == AudioPathFor(p, number, audio, isUpdate)
    && stored.imagePath == ImagePathFor(p, number, images, isUpdate)
    && BuildQuestions(QuestionsOf(p), offset) == Success(stored.questions)
  }

  /**
   * One part, numbered `number`, with its questions numbered on from `last`.
   * A missing title or instructions, or a question without its text or
   * correct answer, aborts.
   */
  function BuildPart(p: PartInput, number: int, last: int, audio: map<int, string>, images: map<int, string>, isUpdate: bool): (r: Result<StoredPart, AuthoringError>)
    ensures r.Success? <==> Storable(p)
    ensures r.Failure? ==> r.error == MissingKey
    ensures r.Success? ==> PartBuiltFrom(r.value, p, number, last, audio, images, isUpdate) && |r.value.questions| == |QuestionsOf(p)|
  {
    if p.title.None? || p.instructions.None? then Failure(MissingKey)
    else
      var qs :- BuildQuestions(QuestionsOf(p), last);
      Success(StoredPart(number, p.title.value, p.instructions.value,
        AudioPathFor(p, number, audio, isUpdate), ImagePathFor(p, number, images, isUpdate), qs))
  }

  /** The parts from index `i` on, numbered `i + 1`, ..., with their questions numbered on from `last`. */
  function BuildParts(parts: seq<PartInput>, i: nat, last: int, audio: map<int, string>, images: map<int, string>, isUpdate: bool): (r: Result<seq<StoredPart>, AuthoringError>)
    requires i <= |parts|
    ensures r.Success? <==> forall k :: i <= k < |parts| ==> Storable(parts[k])
    ensures r.Failure? ==> r.error == MissingKey
    ensures r.Success? ==> |r.value| == |parts| - i
    decreases |parts| - i
  {
    if i == |parts| then Success([])
    else
      var sp :- BuildPart(parts[i], i + 1, last, audio, images, isUpdate);
      var rest :- BuildParts(parts, i + 1, last + |QuestionsOf(parts[i])|, audio, images, isUpdate);
      Success([sp] + rest)
  }

  /**
   * Built from index `i` on, the part at index `n` is payload part `n`
   * under number `n + 1`, its questions numbered on from the questions of
   * the parts from `i` up to it.
   */
  lemma {:induction false} BuildPartsAt(parts: seq<PartInput>, i: nat, last: int, audio: map<int, string>, images: map<int, string>, isUpdate: bool, n: nat)
    requires i <= n < |parts|
    requires BuildParts(parts, i, last, audio, images, isUpdate).Success?
    ensures BuildPart(parts[n], n + 1, last + QuestionsBetween(parts, i, n), audio, images, isUpdate)
         == Success(BuildParts(parts, i, last, audio, images, isUpdate).value[n - i])
    decreases n - i, 1
  {
    if n == i {
      BuildPartsHead(parts, i, last, audio, images, isUpdate);
    } else {
      BuildPartsAtLater(parts, i, last, audio, images, isUpdate, n);
    }
  }

  /** `BuildPartsAt` past the first part: the same part of the build of the rest. */
  lemma {:induction false} BuildPartsAtLater(parts: seq<PartInput>, i: nat, last: int, audio: map<int, string>, images: map<int, string>, isUpdate: bool, n: nat)
    requires i < n < |parts|
    requires BuildParts(parts, i, last, audio, images, isUpdate).Success?
    ensures BuildPart(parts[n], n + 1, last + QuestionsBetween(parts, i, n), audio, images, isUpdate)
         == Success(BuildParts(parts, i, last, audio, images, isUpdate).value[n - i])
    decreases n - i, 0
  {
    BuildPartsShift(parts, i, last, audio, images, isUpdate, n);
    BuildPartsAt(parts, i + 1, last + |QuestionsOf(parts[i])|, audio, images, isUpdate, n);
    assert last + QuestionsBetween(parts, i, n) == last + |QuestionsOf(parts[i])| + QuestionsBetween(parts, i + 1, n);
  }

  /** The first built part is payload part `i` built on from `last`. */
  lemma BuildPartsHead(parts: seq<PartInput>, i: nat, last: int, audio: map<int, string>, images: map<int, string>, isUpdate: bool)
    requires i < |parts|
    requires BuildParts(parts, i, last, audio, images, isUpdate).Success?
    ensures BuildPart(parts[i], i + 1, last, audio, images, isUpdate) == Success(BuildParts(parts, i, last, audio, images, isUpdate).value[0])
  {
  }

  /** Past the first, the part at index `n` of a build from `i` is the same part of the build from `i + 1`. */
  lemma BuildPartsShift(parts: seq<PartInput>, i: nat, last: int, audio: map<int, string>, images: map<int, string>, isUpdate: bool, n: nat)
    requires i < n < |parts|
    requires BuildParts(parts, i, last, audio, images, isUpdate).Success?
    ensures BuildParts(parts, i + 1, last + |QuestionsOf(parts[i])|, audio, images, isUpdate).Success?
    ensures BuildParts(parts, i, last, audio, images, isUpdate).value[n - i]
         == BuildParts(parts, i + 1, last + |QuestionsOf(parts[i])|, audio, images, isUpdate).value[n - (i + 1)]
  {
  }

  /**
   * The questions of the built parts, read in part order, are numbered
   * `last + 1`, `last + 2`, ... with no gap.
   */
  lemma {:induction false} BuildPartsNumbering(parts: seq<PartInput>, i: nat, last: int, audio: map<int, string>, images: map<int, string>, isUpdate: bool)
    requires i <= |parts|
    requires BuildParts(parts, i, last, audio, images, isUpdate).Success?
    ensures NumberedFrom(AllQuestions(BuildParts(parts, i, last, audio, images, isUpdate).value), last)
    decreases |parts| - i
  {
    if i < |parts| {
      var qs := BuildQuestions(QuestionsOf(parts[i]), last).value;
      BuiltPartStep(parts, i, last, audio, images, isUpdate);
      BuildPartsNumbering(parts, i + 1, last + |QuestionsOf(parts[i])|, audio, images, isUpdate);
      QuestionsNumbered(QuestionsOf(parts[i]), last);
      ConcatNumbered(qs, AllQuestions(BuildParts(parts, i + 1, last + |QuestionsOf(parts[i])|, audio, images, isUpdate).value), last);
    }
  }

  /** The built parts hold one question per payload question. */
  lemma {:induction false} BuildPartsCount(parts: seq<PartInput>, i: nat, last: int, audio: map<int, string>, images: map<int, string>, isUpdate: bool)
    requires i <= |parts|
    requires BuildParts(parts, i, last, audio, images, isUpdate).Success?
    ensures |AllQuestions(BuildParts(parts, i, last, audio, images, isUpdate).value)| == QuestionTotal(parts[i..])
    decreases |parts| - i
  {
    if i < |parts| {
      var qs := BuildQuestions(QuestionsOf(parts[i]), last).value;
      BuiltPartStep(parts, i, last, audio, images, isUpdate);
      BuildPartsCount(parts, i + 1, last + |QuestionsOf(parts[i])|, audio, images, isUpdate);
    } else {
      assert parts[i..] == [];
    }
  }

  /** Questions numbered on from `last`, one after another. */
  predicate NumberedFrom(qs: seq<Question>, last: int) {
    forall k :: 0 <= k < |qs| ==> qs[k].number == last + k + 1
  }

  /** One part's questions are numbered on from `last`. */
  lemma QuestionsNumbered(qs: seq<QuestionInput>, last: int)
    requires BuildQuestions(qs, last).Success?
    ensures NumberedFrom(BuildQuestions(qs, last).value, last)
  {
    var built := BuildQuestions(qs, last).value;
    forall k | 0 <= k < |built|
      ensures built[k].number == last + k + 1
    {
      BuildQuestionsAt(qs, last, k);
    }
  }

  /** Numbering on from `last`, then on from where it stopped, is numbering on from `last`. */
  lemma ConcatNumbered(a: seq<Question>, b: seq<Question>, last: int)
    requires NumberedFrom(a, last) && NumberedFrom(b, last + |a|)
    ensures NumberedFrom(a + b, last)
  {
    forall k | 0 <= k < |a + b|
      ensures (a + b)[k].number == last + k + 1
    {
      if k >= |a| {
        assert (a + b)[k] == b[k - |a|];
      }
    }
  }

  /** A built part contributes its own questions in front of the later parts' questions. */
  lemma BuiltPartStep(parts: seq<PartInput>, i: nat, last: int, audio: map<int, string>, images: map<int, string>, isUpdate: bool)
    requires i < |parts|
    requires BuildParts(parts, i, last, audio, images, isUpdate).Success?
    ensures var qs := BuildQuestions(QuestionsOf(parts[i]), last);
      && qs.Success?
      && |qs.value| == |QuestionsOf(parts[i])|
      && BuildParts(parts, i + 1, last + |QuestionsOf(parts[i])|, audio, images, isUpdate).Success?
      && AllQuestions(BuildParts(parts, i, last, audio, images, isUpdate).value)
         == qs.value + AllQuestions(BuildParts(parts, i + 1, last + |QuestionsOf(parts[i])|, audio, images, isUpdate).value)
      && QuestionTotal(parts[i..]) == |QuestionsOf(parts[i])| + QuestionTotal(parts[i + 1..])
  {
    var built := BuildParts(parts, i, last, audio, images, isUpdate).value;
    var qs := BuildQuestions(QuestionsOf(parts[i]), last).value;
    var rest := BuildParts(parts, i + 1, last + |QuestionsOf(parts[i])|, audio, images, isUpdate).value;
    assert built[0].questions == qs;
    assert built[1..] == rest;
    assert parts[i..][1..] == parts[i + 1..];
  }

  /**
   * store(): validation first; then the four parts are stored with their
   * uploads, and the questions numbered 1, 2, ... across parts. The test is
   * active unless the request says otherwise.
   */
  function Store(title: string, description: Option<string>, isActive: Option<bool>, parts: Option<seq<PartInput>>,
                 audio: map<int, string>, images: map<int, string>): (r: Result<TestRecord, AuthoringError>)
    ensures ValidateStore(parts, audio).Some? ==> r == Failure(ValidateStore(parts, audio).value)
    ensures ValidateStore(parts, audio).None? ==> r.Success?
    ensures r.Success? ==> |r.value.parts| == RequiredParts && r.value.title == title
    ensures r.Success? ==> r.value.isActive == isActive.GetOr(true)
    ensures r.Success? ==> forall k :: 0 <= k < |AllQuestions(r.value.parts)| ==> AllQuestions(r.value.parts)[k].number == k + 1
  {
    var e := ValidateStore(parts, audio);
    if e.Some? then Failure(e.value)
    else
      ValidatedPartsBuild(parts.value, 0, 0, audio, images);
      var built := BuildParts(parts.value, 0, 0, audio, images, false);
      BuildPartsNumbering(parts.value, 0, 0, audio, images, false);
      Success(TestRecord(title, description, isActive.GetOr(true), built.value))
  }

  /** Parts that passed validation never abort on a missing key. */
  lemma ValidatedPartsBuild(parts: seq<PartInput>, i: nat, last: int, audio: map<int, string>, images: map<int, string>)
    requires i <= |parts|
    requires forall k :: i <= k < |parts| ==> PartError(parts[k], k + 1, audio).None?
    ensures BuildParts(parts, i, last, audio, images, false).Success?
  {
    forall k | i <= k < |parts|
      ensures Storable(parts[k])
    {
      var qs := QuestionsOf(parts[k]);
      assert PartError(parts[k], k + 1, audio).None?;
      assert FirstQuestionError(qs, k + 1, 0).None?;
      forall j | 0 <= j < |qs|
        ensures HasReadKeys(qs[j])
      {
        assert QuestionError(qs[j], k + 1, j + 1).None?;
      }
    }
  }

  /**
   * update(): the given title, description and active flag are filled in;
   * the parts are replaced only when the payload has exactly four, and a
   * missing key while replacing them rolls everything back.
   */
  function Update(test: TestRecord, title: Option<string>, description: Option<Option<string>>, isActive: Option<bool>,
                  parts: Option<seq<PartInput>>, audio: map<int, string>, images: map<int, string>): (r: Result<TestRecord, AuthoringError>)
    ensures r.Failure? ==> r.error == MissingKey && parts.Some? && |parts.value| == RequiredParts
    ensures parts.Some? && |parts.value| == RequiredParts ==>
      (r.Success? <==> forall k :: 0 <= k < RequiredParts ==> Storable(parts.value[k]))
    ensures r.Success? && (parts.None? || |parts.value| != RequiredParts) ==> r.value.parts == test.parts
    ensures r.Success? && parts.Some? && |parts.value| == RequiredParts ==> |r.value.parts| == RequiredParts
    ensures r.Success? ==> r.value.title == title.GetOr(test.title) && r.value.isActive == isActive.GetOr(test.isActive)
    ensures r.Success? ==> r.value.description == description.GetOr(test.description)
    ensures r.Success? && parts.Some? && |parts.value| == RequiredParts ==>
      forall k :: 0 <= k < |AllQuestions(r.value.parts)| ==> AllQuestions(r.value.parts)[k].number == k + 1
  {
    var filled := test.(title := title.GetOr(test.title), description := description.GetOr(test.description),
                        isActive := isActive.GetOr(test.isActive));
    if parts.Some? && |parts.value| == RequiredParts then
      var built :- BuildParts(parts.value, 0, 0, audio, images, true);
      BuildPartsNumbering(parts.value, 0, 0, audio, images, true);
      Success(filled.(parts := built))
    else Success(filled)
  }

  /** A part with no new upload keeps the existing paths the payload names, `""` and null by default. */
  lemma UpdateKeepsExistingPaths(test: TestRecord, title: Option<string>, description: Option<Option<string>>, isActive: Option<bool>,
                                 parts: seq<PartInput>, audio: map<int, string>, images: map<int, string>, k: nat)
    requires |parts| == RequiredParts && k < RequiredParts
    requires Update(test, title, description, isActive, Some(parts), audio, images).Success?
    requires k + 1 !in audio && k + 1 !in images
    ensures var stored := Update(test, title, description, isActive, Some(parts), audio, images).value.parts[k];
      && stored.audioPath == parts[k].existingAudioPath.GetOr("")
      && stored.imagePath == parts[k].existingImagePath
  {
    BuiltPartAt(parts, audio, images, true, k);
  }

  /**
   * A stored question written from payload question `q` under `number`: the
   * type (mcq when missing), text, options and answer of the payload, and a
   * word limit exactly for the text types, 3 unless the payload gives one.
   */
  predicate WrittenFrom(sq: Question, q: QuestionInput, number: int) {
    && sq.number == number
    && sq.questionType == TypeOf(q)
    && sq.questionText == q.questionText && q.correctAnswer == Some(sq.correctAnswer)
    && sq.optionA == q.optionA && sq.optionB == q.optionB && sq.optionC == q.optionC && sq.optionD == q.optionD
    && (sq.wordLimit.Some? <==> IsTextBased(TypeOf(q)))
    && (IsTextBased(TypeOf(q)) ==> sq.wordLimit == Some(q.wordLimit.GetOr(DefaultWordLimit)))
  }

  /**
   * The `k`-th part of a whole build is written from payload part `k` under
   * number `k + 1`, its questions numbered after all questions of the parts
   * before it.
   */
  lemma BuiltPartAt(parts: seq<PartInput>, audio: map<int, string>, images: map<int, string>, isUpdate: bool, k: nat)
    requires BuildParts(parts, 0, 0, audio, images, isUpdate).Success?
    requires k < |parts|
    ensures PartBuiltFrom(BuildParts(parts, 0, 0, audio, images, isUpdate).value[k], parts[k], k + 1, QuestionsBetween(parts, 0, k), audio, images, isUpdate)
  {
    BuildPartsAt(parts, 0, 0, audio, images, isUpdate, k);
    assert k - 0 == k;
  }

  /** The `j`-th of the questions built on from `last` is written from the `j`-th payload question under `last + j + 1`. */
  lemma QuestionWrittenAt(qs: seq<QuestionInput>, last: int, built: seq<Question>, j: nat)
    requires BuildQuestions(qs, last) == Success(built) && j < |qs|
    ensures j < |built| && WrittenFrom(built[j], qs[j], last + j + 1)
  {
    BuildQuestionsAt(qs, last, j);
  }

  /**
   * What `store` writes as part `k + 1`: the payload part's title and
   * instructions, its audio upload and optional image upload, and as its
   * `j`-th question the payload's `j`-th question, numbered after the
   * questions of the earlier parts.
   */
  lemma StoreWritesPayload(title: string, description: Option<string>, isActive: Option<bool>, parts: seq<PartInput>,
                           audio: map<int, string>, images: map<int, string>, k: nat, j: nat)
    requires ValidateStore(Some(parts), audio).None?
    requires k < RequiredParts && j < |QuestionsOf(parts[k])|
    ensures var stored := Store(title, description, isActive, Some(parts), audio, images).value.parts[k];
      && stored.partNumber == k + 1
      && parts[k].title == Some(stored.title) && parts[k].instructions == Some(stored.instructions)
      && k + 1 in audio && stored.audioPath == audio[k + 1]
      && stored.imagePath == (if k + 1 in images then Some(images[k + 1]) else None)
      && j < |stored.questions|
      && WrittenFrom(stored.questions[j], QuestionsOf(parts[k])[j], QuestionsBetween(parts, 0, k) + j + 1)
  {
    assert PartError(parts[k], k + 1, audio).None?;
    ValidatedPartsBuild(parts, 0, 0, audio, images);
    var built := BuildParts(parts, 0, 0, audio, images, false).value;
    assert Store(title, description, isActive, Some(parts), audio, images).value.parts == built;
    BuiltPartAt(parts, audio, images, false, k);
    QuestionWrittenAt(QuestionsOf(parts[k]), QuestionsBetween(parts, 0, k), built[k].questions, j);
  }

  /**
   * What `update` writes as part `k + 1` of a four-part payload it can read:
   * the payload part's title and instructions, its files, and as its `j`-th
   * question the payload's `j`-th question, numbered after the questions of
   * the earlier parts.
   */
  lemma UpdateWritesPayload(test: TestRecord, title: Option<string>, description: Option<Option<string>>, isActive: Option<bool>,
                            parts: seq<PartInput>, audio: map<int, string>, images: map<int, string>, k: nat, j: nat)
    requires |parts| == RequiredParts && forall m :: 0 <= m < RequiredParts ==> Storable(parts[m])
    requires k < RequiredParts && j < |QuestionsOf(parts[k])|
    ensures var stored := Update(test, title, description, isActive, Some(parts), audio, images).value.parts[k];
      && stored.partNumber == k + 1
      && parts[k].title == Some(stored.title) && parts[k].instructions == Some(stored.instructions)
      && stored.audioPath == AudioPathFor(parts[k], k + 1, audio, true)
      && stored.imagePath == ImagePathFor(parts[k], k + 1, images, true)
      && j < |stored.questions|
      && WrittenFrom(stored.questions[j], QuestionsOf(parts[k])[j], QuestionsBetween(parts, 0, k) + j + 1)
  {
    var built := BuildParts(parts, 0, 0, audio, images, true).value;
    assert Update(test, title, description, isActive, Some(parts), audio, images).value.parts == built;
    BuiltPartAt(parts, audio, images, true, k);
    QuestionWrittenAt(QuestionsOf(parts[k]), QuestionsBetween(parts, 0, k), built[k].questions, j);
  }

  /** `"0"` is an empty question text or answer under PHP rules, so such a question is refused. */
  lemma ZeroIsIncomplete(q: QuestionInput, part: int, number: int)
    requires TypeOf(q) in ValidTypes
    requires q.questionText == Some("0") || q.correctAnswer == Some("0")
    ensures QuestionError(q, part, number) == Some(QuestionIncomplete(part, number))
  {
  }

  /** Choice questions need options a, b and c; option d may be missing. */
  lemma OptionDNotRequired(q: QuestionInput, part: int, number: int)
    requires TypeOf(q) == Mcq || TypeOf(q) == Matching
    requires !IsEmpty(q.questionText) && !IsEmpty(q.correctAnswer)
    ensures QuestionError(q, part, number).None? <==> !IsEmpty(q.optionA) && !IsEmpty(q.optionB) && !IsEmpty(q.optionC)
  {
  }

  /** A missing type is mcq, so a question with no type is refused without options a to c. */
  lemma MissingTypeIsMcq(q: QuestionInput, part: int, number: int)
    requires q.questionType.None?
    requires !IsEmpty(q.questionText) && !IsEmpty(q.correctAnswer) && IsEmpty(q.optionA)
    ensures QuestionError(q, part, number) == Some(OptionsMissing(part, number))
  {
  }

  /** The first failure is reported: a part with no title wins over a later part's missing audio. */
  lemma FirstPartFailureWins(parts: seq<PartInput>, audio: map<int, string>, k: nat)
    requires |parts| == RequiredParts && k < RequiredParts
    requires forall j :: 0 <= j < k ==> PartError(parts[j], j + 1, audio).None?
    requires PartError(parts[k], k + 1, audio).Some?
    ensures ValidateStore(Some(parts), audio) == PartError(parts[k], k + 1, audio)
  {
    FirstErrorAt(parts, audio, 0, k);
  }

  lemma {:induction false} FirstErrorAt(parts: seq<PartInput>, audio: map<int, string>, i: nat, k: nat)
    requires i <= k < |parts|
    requires forall j :: i <= j < k ==> PartError(parts[j], j + 1, audio).None?
    requires PartError(parts[k], k + 1, audio).Some?
    ensures FirstPartError(parts, audio, i) == PartError(parts[k], k + 1, audio)
    decreases k - i
  {
    if i < k {
      FirstErrorAt(parts, audio, i + 1, k);
    }
  }
}
