/**
 * The attempt lifecycle of ListeningController: starting or resuming an
 * attempt, saving progress, marking a part's audio as played, and submitting,
 * which grades every question of the test and freezes the result.
 *
 * Each operation is a pure transition on the attempt record. The attempts
 * table is a sequence whose index is the attempt id; `now` is a parameter.
 */
module Attempts {
  import opened Wrappers
  import opened PhpStrings
  import opened Questions
  import opened AnswerChecker
  import opened BandScore

  /** Seconds on the clock of a fresh attempt (30 minutes). */
  const InitialTimeRemaining: int := 1800
  /** Parts of a listening test; audio flags exist for parts 1 to 4. */
  const PartCount: int := 4

  /** The answers JSON object: question number as a string, to the answer or null. */
  type Answers = map<string, Option<string>>

  /** A row of listening_attempts. Band is in half-bands; a fresh attempt stores 0. */
  datatype Attempt = Attempt(
    id: nat,
    userId: int,
    testId: int,
    answers: Answers,
    correctCount: int,
    bandHalves: int,
    startedAt: int,
    submittedAt: Option<int>,
    timeRemaining: Option<int>,
    currentPart: int,
    partAudioPlayed: Option<map<string, bool>>)

  /** The parts of a listening test that the attempt operations read. */
  datatype ListeningTest = ListeningTest(id: int, isActive: bool, questions: seq<Question>)

  /** The refusals: 404 not available, 403 not the owner, 400 submitted, 400 bad part. */
  datatype AttemptError = NotAvailable | Unauthorized | AlreadySubmitted | InvalidPart

  /** An attempt of this user on this test that has not been submitted. */
  predicate IsOpenFor(a: Attempt, userId: int, testId: int) {
    a.userId == userId && a.testId == testId && a.submittedAt.None?
  }

  /**
   * `where(user).where(test).whereNull('submitted_at')->first()` over the
   * table from index `i` on: the first open attempt, if any.
   */
  function FirstOpen(store: seq<Attempt>, userId: int, testId: int, i: nat): (r: Option<nat>)
    requires i <= |store|
    ensures r.Some? ==> i <= r.value < |store| && IsOpenFor(store[r.value], userId, testId)
    ensures r.Some? ==> forall j :: i <= j < r.value ==> !IsOpenFor(store[j], userId, testId)
    ensures r.None? <==> forall j :: i <= j < |store| ==> !IsOpenFor(store[j], userId, testId)
    decreases |store| - i
  {
    if i == |store| then None
    else if IsOpenFor(store[i], userId, testId) then Some(i)
    else FirstOpen(store, userId, testId, i + 1)
  }

  /** Every part number 1..4, as a string key, not yet played. */
  const NoAudioPlayed: map<string, bool> := map["1" := false, "2" := false, "3" := false, "4" := false]

  /** The attempt `start` creates. */
  function FreshAttempt(id: nat, userId: int, testId: int, now: int): Attempt {
    Attempt(id, userId, testId, map[], 0, 0, now, None, Some(InitialTimeRemaining), 1, Some(NoAudioPlayed))
  }

  /**
   * start(): refused for an inactive test; otherwise the first open attempt
   * of this user on this test is resumed, or a fresh one is appended.
   * The result is the new table and the attempt handed back.
   */
  function Start(store: seq<Attempt>, userId: int, test: ListeningTest, now: int): (r: Result<(seq<Attempt>, Attempt), AttemptError>)
    requires IdsAreIndices(store)
    ensures !test.isActive <==> r.Failure?
    ensures r.Failure? ==> r.error == NotAvailable
    ensures r.Success? ==> IsOpenFor(r.value.1, userId, test.id)
    ensures r.Success? ==> r.value.1.id < |r.value.0| && r.value.0[r.value.1.id] == r.value.1
    ensures r.Success? ==> |r.value.0| >= |store| && r.value.0[..|store|] == store
  {
    if !test.isActive then Failure(NotAvailable)
    else
      match FirstOpen(store, userId, test.id, 0)
      case Some(i) => Success((store, store[i]))
      case None =>
        var a := FreshAttempt(|store|, userId, test.id, now);
        Success((store + [a], a))
  }

  /** The attempt ids are the table indices. */
  predicate IdsAreIndices(store: seq<Attempt>) {
    forall i :: 0 <= i < |store| ==> store[i].id == i
  }

  /** No user has two open attempts on one test. */
  predicate AtMostOneOpen(store: seq<Attempt>) {
    forall i, j ::
      (0 <= i < |store| && 0 <= j < |store| && store[i].submittedAt.None? &&
       IsOpenFor(store[j], store[i].userId, store[i].testId)) ==> i == j
  }

  /** A fresh attempt is open, with no answers, count and band 0, 1800 seconds, part 1 and no audio played. */
  lemma FreshAttemptInitialValues(store: seq<Attempt>, userId: int, test: ListeningTest, now: int)
    requires test.isActive && IdsAreIndices(store)
    requires forall j :: 0 <= j < |store| ==> !IsOpenFor(store[j], userId, test.id)
    ensures var r := Start(store, userId, test, now);
      && r.Success? && |r.value.0| == |store| + 1
      && var a := r.value.1;
      && a.answers == map[] && a.correctCount == 0 && a.bandHalves == 0
      && a.timeRemaining == Some(InitialTimeRemaining) && a.currentPart == 1 && a.submittedAt.None?
      && a.startedAt == now
      && a.partAudioPlayed.Some?
      && (forall p :: 1 <= p <= PartCount ==> IntString(p) in a.partAudioPlayed.value && !a.partAudioPlayed.value[IntString(p)])
  {
    var a := FreshAttempt(|store|, userId, test.id, now);
    forall p | 1 <= p <= PartCount
      ensures IntString(p) in a.partAudioPlayed.value && !a.partAudioPlayed.value[IntString(p)]
    {
      assert IntString(p) == [('0' as int + p) as char];
    }
  }

  /** An open attempt is resumed: the table is unchanged and the first open attempt comes back. */
  lemma StartResumes(store: seq<Attempt>, userId: int, test: ListeningTest, now: int, i: nat)
    requires test.isActive && IdsAreIndices(store)
    requires i < |store| && IsOpenFor(store[i], userId, test.id)
    ensures var r := Start(store, userId, test, now);
      r.Success? && r.value.0 == store && r.value.1.id <= i
  {
  }

  /** Starting twice gives back the same attempt and leaves the table as the first start left it. */
  lemma StartTwiceResumes(store: seq<Attempt>, userId: int, test: ListeningTest, now: int, later: int)
    requires test.isActive && IdsAreIndices(store)
    ensures var first := Start(store, userId, test, now);
      && first.Success?
      && Start(first.value.0, userId, test, later) == first
  {
    var first := Start(store, userId, test, now);
    var s1 := first.value.0;
    var a := first.value.1;
    var again := FirstOpen(s1, userId, test.id, 0);
    match FirstOpen(store, userId, test.id, 0)
    case Some(i) =>
      assert again == Some(i);
    case None =>
      assert s1 == store + [a];
      assert forall j :: 0 <= j < |store| ==> s1[j] == store[j];
      assert again == Some(|store|);
  }

  /** Starting keeps ids equal to indices and keeps at most one open attempt per user and test. */
  lemma StartKeepsTableInvariants(store: seq<Attempt>, userId: int, test: ListeningTest, now: int)
    requires IdsAreIndices(store) && AtMostOneOpen(store)
    ensures var r := Start(store, userId, test, now);
      r.Success? ==> IdsAreIndices(r.value.0) && AtMostOneOpen(r.value.0)
  {
    var r := Start(store, userId, test, now);
    if r.Success? && FirstOpen(store, userId, test.id, 0).None? {
      var s1 := r.value.0;
      assert s1 == store + [r.value.1];
      forall i, j | 0 <= i < |s1| && 0 <= j < |s1| && s1[i].submittedAt.None? &&
        IsOpenFor(s1[j], s1[i].userId, s1[i].testId)
        ensures i == j
      {
        if i < |store| && j < |store| {
          assert store[i] == s1[i] && store[j] == s1[j];
        } else if j == |store| && i < |store| {
          assert IsOpenFor(store[i], userId, test.id);
        }
      }
    }
  }

  /**
   * saveProgress(): the owner check first, then the submitted check; then
   * answers, time_remaining and current_part take the supplied values, and
   * an absent input keeps the stored one.
   */
  function SaveProgress(a: Attempt, userId: int, answers: Option<Answers>, timeRemaining: Option<int>, currentPart: Option<int>): (r: Result<Attempt, AttemptError>)
    ensures a.userId != userId ==> r == Failure(Unauthorized)
    ensures a.userId == userId && a.submittedAt.Some? ==> r == Failure(AlreadySubmitted)
    ensures r.Success? <==> a.userId == userId && a.submittedAt.None?
    ensures r.Success? ==> r.value.(answers := a.answers, timeRemaining := a.timeRemaining, currentPart := a.currentPart) == a
    ensures r.Success? ==> r.value.answers == (if answers.Some? then answers.value else a.answers)
    ensures r.Success? ==> r.value.timeRemaining == (if timeRemaining.Some? then timeRemaining else a.timeRemaining)
    ensures r.Success? ==> r.value.currentPart == (if currentPart.Some? then currentPart.value else a.currentPart)
  {
    if a.userId != userId then Failure(Unauthorized)
    else if a.submittedAt.Some? then Failure(AlreadySubmitted)
    else
      Success(a.(
        answers := answers.GetOr(a.answers),
        timeRemaining := if timeRemaining.Some? then timeRemaining else a.timeRemaining,
        currentPart := currentPart.GetOr(a.currentPart)))
  }

  /**
   * markAudioPlayed(): the owner check, then the part range 1..4; then the
   * flag of that part is set, creating the map when it was null. There is
   * no submitted check.
   */
  function MarkAudioPlayed(a: Attempt, userId: int, part: int): (r: Result<Attempt, AttemptError>)
    ensures a.userId != userId ==> r == Failure(Unauthorized)
    ensures a.userId == userId && (part < 1 || part > PartCount) ==> r == Failure(InvalidPart)
    ensures r.Success? <==> a.userId == userId && 1 <= part <= PartCount
    ensures r.Success? ==> r.value.(partAudioPlayed := a.partAudioPlayed) == a
    ensures r.Success? ==>
      (r.value.partAudioPlayed.Some? &&
       IntString(part) in r.value.partAudioPlayed.value && r.value.partAudioPlayed.value[IntString(part)])
    ensures r.Success? && a.partAudioPlayed.Some? ==>
      forall k :: k != IntString(part) ==>
        (k in r.value.partAudioPlayed.value <==> k in a.partAudioPlayed.value) &&
        (k in a.partAudioPlayed.value ==> r.value.partAudioPlayed.value[k] == a.partAudioPlayed.value[k])
  {
    if a.userId != userId then Failure(Unauthorized)
    else if part < 1 || part > PartCount then Failure(InvalidPart)
    else
      var played := a.partAudioPlayed.GetOr(map[]);
      Success(a.(partAudioPlayed := Some(played[IntString(part) := true])))
  }

  /** Marking one part leaves the other parts' flags as they were. */
  lemma MarkAudioKeepsOtherParts(a: Attempt, userId: int, part: int, other: int)
    requires a.userId == userId && 1 <= part <= PartCount && other != part
    requires a.partAudioPlayed.Some? && IntString(other) in a.partAudioPlayed.value
    ensures var r := MarkAudioPlayed(a, userId, part);
      r.Success? && r.value.partAudioPlayed.value[IntString(other)] == a.partAudioPlayed.value[IntString(other)]
  {
    IntStringInjective(part, other);
  }

  /** `$userAnswers[(string) $question->question_number] ?? null`. */
  function AnswerFor(q: Question, answers: Answers): Option<string> {
    var key := IntString(q.number);
    if key in answers then answers[key] else None
  }

  predicate IsCorrect(q: Question, answers: Answers) {
    CheckAnswer(q, AnswerFor(q, answers))
  }

  /** The verdict of the matcher on each question, in order. */
  function Verdicts(questions: seq<Question>, answers: Answers): (v: seq<bool>)
    ensures |v| == |questions|
    ensures forall i :: 0 <= i < |v| ==> v[i] == IsCorrect(questions[i], answers)
  {
    seq(|questions|, i requires 0 <= i < |questions| => IsCorrect(questions[i], answers))
  }

  /** The number of `true` verdicts. */
  function CountTrue(v: seq<bool>): (n: nat)
    ensures n <= |v|
  {
    if |v| == 0 then 0
    else CountTrue(v[..|v| - 1]) + (if v[|v| - 1] then 1 else 0)
  }

  /** The number of questions whose answer the matcher accepts. */
  function CountCorrect(questions: seq<Question>, answers: Answers): (n: nat)
    ensures n <= |questions|
  {
    CountTrue(Verdicts(questions, answers))
  }

  /** The positions of the `true` verdicts. */
  function TruePositions(v: seq<bool>): set<nat> {
    set i: nat | i < |v| && v[i]
  }

  /** The positions of the questions answered correctly. */
  function CorrectPositions(questions: seq<Question>, answers: Answers): set<nat> {
    set i: nat | i < |questions| && IsCorrect(questions[i], answers)
  }

  /** Counting `true` verdicts one by one gives the size of the set of their positions. */
  lemma {:induction false} CountTrueIsPositions(v: seq<bool>)
    ensures CountTrue(v) == |TruePositions(v)|
    decreases |v|
  {
    if |v| > 0 {
      var n := |v| - 1;
      var init := v[..n];
      CountTrueIsPositions(init);
      var before := TruePositions(init);
      var last := if v[n] then {n} else {};
      forall i: nat
        ensures i in TruePositions(v) <==> i in before + last
      {
        if i < n {
          assert init[i] == v[i];
        }
      }
      assert TruePositions(v) == before + last;
      assert n !in before;
    }
  }

  /** The count is the number of positions answered correctly. */
  lemma CountIsCorrectPositions(questions: seq<Question>, answers: Answers)
    ensures CountCorrect(questions, answers) == |CorrectPositions(questions, answers)|
  {
    var v := Verdicts(questions, answers);
    CountTrueIsPositions(v);
    assert TruePositions(v) == CorrectPositions(questions, answers);
  }

  /** Answers that agree on every question's key give the same count. */
  lemma CountDependsOnlyOnQuestionKeys(questions: seq<Question>, a1: Answers, a2: Answers)
    requires forall k :: 0 <= k < |questions| ==> AnswerFor(questions[k], a1) == AnswerFor(questions[k], a2)
    ensures CountCorrect(questions, a1) == CountCorrect(questions, a2)
  {
    assert Verdicts(questions, a1) == Verdicts(questions, a2);
  }

  /** The grading loop of submit(), one question at a time. */
  method Grade(questions: seq<Question>, answers: Answers) returns (count: nat)
    ensures count == CountCorrect(questions, answers)
    ensures count == |CorrectPositions(questions, answers)|
  {
    var v := Verdicts(questions, answers);
    count := 0;
    var i := 0;
    while i < |questions|
      invariant 0 <= i <= |questions|
      invariant count == CountTrue(v[..i])
    {
      assert v[..i + 1][..i] == v[..i];
      var ok := CheckAnswer(questions[i], AnswerFor(questions[i], answers));
      assert ok == v[i];
      if ok {
        count := count + 1;
      }
      i := i + 1;
    }
    assert v[..|questions|] == v;
    CountIsCorrectPositions(questions, answers);
  }

  /**
   * submit(): the owner check, then the submitted check; then every question
   * of the test is graded against the supplied answers (the stored ones when
   * none are supplied), the band is looked up, and the attempt is stamped
   * submitted with the supplied time remaining, 0 by default.
   */
  function Submit(a: Attempt, userId: int, questions: seq<Question>, answers: Option<Answers>, timeRemaining: Option<int>, now: int): (r: Result<Attempt, AttemptError>)
    ensures a.userId != userId ==> r == Failure(Unauthorized)
    ensures a.userId == userId && a.submittedAt.Some? ==> r == Failure(AlreadySubmitted)
    ensures r.Success? <==> a.userId == userId && a.submittedAt.None?
    ensures r.Success? ==> r.value.submittedAt == Some(now)
    ensures r.Success? ==> 0 <= r.value.correctCount <= |questions|
    ensures r.Success? ==> r.value.bandHalves == BandHalves(r.value.correctCount)
    ensures r.Success? ==> r.value.answers == (if answers.Some? then answers.value else a.answers)
    ensures r.Success? ==> r.value.correctCount == |CorrectPositions(questions, r.value.answers)|
    ensures r.Success? ==> r.value.timeRemaining == Some(if timeRemaining.Some? then timeRemaining.value else 0)
    ensures r.Success? ==> r.value.(answers := a.answers, correctCount := a.correctCount, bandHalves := a.bandHalves,
      submittedAt := a.submittedAt, timeRemaining := a.timeRemaining) == a
  {
    if a.userId != userId then Failure(Unauthorized)
    else if a.submittedAt.Some? then Failure(AlreadySubmitted)
    else
      var given := answers.GetOr(a.answers);
      var count := CountCorrect(questions, given);
      CountIsCorrectPositions(questions, given);
      Success(a.(
        answers := given,
        correctCount := count,
        bandHalves := BandHalves(count),
        submittedAt := Some(now),
        timeRemaining := Some(timeRemaining.GetOr(0))))
  }

  /**
   * Once submitted, the graded result is frozen: no later submit or save by
   * anyone succeeds, while the owner can still mark audio as played.
   */
  lemma SubmissionIsFinal(a: Attempt, userId: int, questions: seq<Question>, answers: Option<Answers>, timeRemaining: Option<int>, now: int,
                          caller: int, questions2: seq<Question>, answers2: Option<Answers>, time2: Option<int>, part2: Option<int>, now2: int)
    requires a.userId == userId && a.submittedAt.None?
    ensures var s := Submit(a, userId, questions, answers, timeRemaining, now).value;
      && Submit(s, caller, questions2, answers2, time2, now2).Failure?
      && SaveProgress(s, caller, answers2, time2, part2).Failure?
      && MarkAudioPlayed(s, userId, 1).Success?
  {
  }

  /**
   * A submitted attempt's band is the band of its count, one of 3.5 .. 9.0,
   * and never above the band of a perfect score on the test.
   */
  lemma SubmittedBand(a: Attempt, userId: int, questions: seq<Question>, answers: Option<Answers>, timeRemaining: Option<int>, now: int)
    requires a.userId == userId && a.submittedAt.None?
    ensures var s := Submit(a, userId, questions, answers, timeRemaining, now).value;
      && s.bandHalves == BandHalves(s.correctCount)
      && MinBand <= s.bandHalves <= MaxBand && s.bandHalves <= BandHalves(|questions|)
  {
    var s := Submit(a, userId, questions, answers, timeRemaining, now).value;
    BandMonotone(s.correctCount, |questions|);
  }

  /** Writing back an attempt that keeps its owner, test and submitted state keeps the table invariants. */
  lemma UpdateKeepsTableInvariants(store: seq<Attempt>, b: Attempt)
    requires IdsAreIndices(store) && AtMostOneOpen(store)
    requires b.id < |store|
    requires b.userId == store[b.id].userId && b.testId == store[b.id].testId
    requires b.submittedAt.Some? || store[b.id].submittedAt.None?
    ensures IdsAreIndices(store[b.id := b]) && AtMostOneOpen(store[b.id := b])
  {
    var s1 := store[b.id := b];
    forall i, j | 0 <= i < |s1| && 0 <= j < |s1| && s1[i].submittedAt.None? &&
      IsOpenFor(s1[j], s1[i].userId, s1[i].testId)
      ensures i == j
    {
      assert store[i].submittedAt.None? && IsOpenFor(store[j], store[i].userId, store[i].testId);
    }
  }

  /** Saving progress, marking audio and submitting all keep the table invariants when written back. */
  lemma OperationsKeepTableInvariants(store: seq<Attempt>, id: nat, userId: int, questions: seq<Question>,
                                      answers: Option<Answers>, timeRemaining: Option<int>, currentPart: Option<int>, part: int, now: int)
    requires IdsAreIndices(store) && AtMostOneOpen(store) && id < |store|
    ensures var r := SaveProgress(store[id], userId, answers, timeRemaining, currentPart);
      r.Success? ==> IdsAreIndices(store[id := r.value]) && AtMostOneOpen(store[id := r.value])
    ensures var r := MarkAudioPlayed(store[id], userId, part);
      r.Success? ==> IdsAreIndices(store[id := r.value]) && AtMostOneOpen(store[id := r.value])
    ensures var r := Submit(store[id], userId, questions, answers, timeRemaining, now);
      r.Success? ==> IdsAreIndices(store[id := r.value]) && AtMostOneOpen(store[id := r.value])
  {
    var r1 := SaveProgress(store[id], userId, answers, timeRemaining, currentPart);
    if r1.Success? { UpdateKeepsTableInvariants(store, r1.value); }
    var r2 := MarkAudioPlayed(store[id], userId, part);
    if r2.Success? { UpdateKeepsTableInvariants(store, r2.value); }
    var r3 := Submit(store[id], userId, questions, answers, timeRemaining, now);
    if r3.Success? { UpdateKeepsTableInvariants(store, r3.value); }
  }
}
