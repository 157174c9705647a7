# IELTS listening practice: a Dafny model of the backend core

The application runs IELTS listening tests. An administrator authors a test of
four parts, each with an audio file and numbered questions. A candidate starts
an attempt, saves progress, marks each part's audio as played, and submits. The
answers are then graded by the answer checker and mapped to an IELTS band. The
same backend also serves three other features:

- contact requests, which administrators read, answer and re-label;
- password reset links, which carry a combined token;
- sign-in with Google.

The model covers each of these in its own module:

- `Questions`: the six question types and the type predicates of ListeningQuestion.
- `PhpStrings`: the PHP string functions the core relies on, modelled exactly:
  `trim`, ASCII lower-casing, `preg_replace('/\s+/', ' ', …)`, `preg_split`,
  `explode`/`implode`, `str_replace`, `empty()` and the integer-to-string cast.
- `AnswerChecker`: `checkAnswer`. It covers choice and map-labelling
  comparison, word limits, normalisation, the hyphen rule, the spelling table
  and `|`-separated alternatives. The spelling table is a parameter of `Check`,
  and `CheckAnswer` instantiates it with the service's 33 pairs.
- `AnswerExamples`: concrete behaviours the checker promises, proved over all
  words or all spelling tables.
- `BandScore`: `calculateBandScore` in half-bands, with an independent
  range-table reading that is proved equal to it.
- `Attempts`: the start, save-progress, mark-audio and submit operations of the
  candidate's listening controller, over a table of attempts.
- `TestAuthoring`: the validation of `store` and the building of parts and
  questions by `store` and `update` in the admin controller.
- `Contacts`: `markAsRead` and the admin contact operations.
- `Base64`, `UrlEncoding`, `PasswordReset`: the reset link and the reset
  endpoint. The link is built by the reset notification. The reset page reads
  the token back, and the endpoint splits it and consults the password broker.
- `GoogleAuth`: the Google callback. It either links the account to the first
  matching user or creates a new one.

Clocks, database-assigned ids, uploaded file paths, the email validator and
the password broker are parameters.

## Model

| member | source | states |
|---|---|---|
| Questions.IsMapLabeling | backend/app/Models/ListeningQuestion.php:28-31 | map labelling is a valid type and never a choice type |
| Questions.IsTextBased | backend/app/Models/ListeningQuestion.php:23-26 | the text-based types are valid and are neither choice nor map labelling |
| Questions.ValidTypesPartition | backend/app/Http/Controllers/Admin/ListeningTestController.php:48-49 | every one of the six valid types is exactly one of choice, map labelling or text-based |
| PhpStrings.TrimShape | backend/app/Services/AnswerCheckerService.php:51-52 | trim removes only trimmable characters, and only at the two ends; it leaves none at either end, and yields "" exactly for all-trimmable input |
| PhpStrings.LowerShape | backend/app/Services/AnswerCheckerService.php:105 | lower-casing keeps the length, leaves no upper-case ASCII letter, and agrees with the input up to case |
| PhpStrings.LowerEqualIffEqualIgnoringCase | backend/app/Services/AnswerCheckerService.php:54-60 | two strings lower-case to the same string exactly when they are equal up to ASCII case, in both directions |
| PhpStrings.LowerIdempotent | backend/app/Services/AnswerCheckerService.php:105 | lower-casing twice is lower-casing once |
| PhpStrings.CollapseSpaces | backend/app/Services/AnswerCheckerService.php:111-114 | collapsing never lengthens; the first character is a space exactly when the input starts with a \s character |
| PhpStrings.CollapseSpacesShape | backend/app/Services/AnswerCheckerService.php:111-114 | the collapsed string has only single spaces as whitespace, and keeps every non-\s character in order |
| PhpStrings.CollapseFixesCollapsed | backend/app/Services/AnswerCheckerService.php:111-114 | a string already collapsed is unchanged |
| PhpStrings.CollapseIdempotent | backend/app/Services/AnswerCheckerService.php:111-114 | collapsing twice is collapsing once |
| PhpStrings.JoinSplitIsCollapse | backend/app/Services/AnswerCheckerService.php:111-120 | splitting on \s runs and joining with one space is exactly collapsing |
| PhpStrings.SplitOnSpaces | backend/app/Services/AnswerCheckerService.php:120 | the split has at least one piece and no piece holds a \s character |
| PhpStrings.SplitPiecesNonEmpty | backend/app/Services/AnswerCheckerService.php:116-121 | with no \s at either end, every piece of the split is non-empty |
| PhpStrings.DecimalRoundTrip | backend/app/Http/Controllers/ListeningController.php:161-168 | the decimal string of a question number reads back as that number |
| PhpStrings.IntStringInjective | backend/app/Http/Controllers/ListeningController.php:135-137 | distinct integers give distinct string keys |
| PhpStrings.Explode | backend/app/Http/Controllers/Auth/PasswordResetController.php:49 | explode yields at least one piece and no piece holds the separator |
| PhpStrings.JoinExplode | backend/app/Http/Controllers/Auth/GoogleAuthController.php:48-50 | joining the pieces of explode with the separator gives the input back |
| PhpStrings.ExplodeJoin | backend/app/Http/Controllers/Auth/PasswordResetController.php:49-51 | exploding separator-free pieces joined by the separator gives the pieces back |
| PhpStrings.ExplodeIntoTwo | backend/app/Http/Controllers/Auth/PasswordResetController.php:49-56 | a string that explodes into two pieces is the first piece, the separator and the second |
| PhpStrings.ExplodeCount | backend/app/Http/Controllers/Auth/PasswordResetController.php:49-56 | explode yields one more piece than there are separators |
| PhpStrings.StrReplaceAbsent | backend/app/Services/AnswerCheckerService.php:127-131 | replacing a string that does not occur changes nothing |
| PhpStrings.StrReplaceChar | backend/app/Services/AnswerCheckerService.php:75-77 | replacing one character by another is a character-wise substitution of the same length |
| AnswerChecker.NormalizeShape | backend/app/Services/AnswerCheckerService.php:103-109 | a normal form is collapsed, has no upper-case ASCII letter, and keeps the non-\s characters of the trimmed, lower-cased text |
| AnswerChecker.NormalizeKeepsNormal | backend/app/Services/AnswerCheckerService.php:103-109 | a lower-case, trimmed, collapsed string is its own normal form |
| AnswerChecker.WordCount | backend/app/Services/AnswerCheckerService.php:116-121 | the count is 0 exactly when the text trims to nothing |
| AnswerChecker.WordCountCountsWords | backend/app/Services/AnswerCheckerService.php:116-121 | the count is the number of non-empty, space-free words, which joined by single spaces give the collapsed text |
| AnswerChecker.VariantFromIff | backend/app/Services/AnswerCheckerService.php:123-135 | the table scan succeeds exactly when some pair from that point on, in one of its two directions, turns the user's answer into the correct one |
| AnswerChecker.AnyAlternativeIff | backend/app/Services/AnswerCheckerService.php:87-98 | the alternatives loop accepts exactly when some alternative matches by equality or by the spelling rule |
| AnswerChecker.Check | backend/app/Services/AnswerCheckerService.php:45-60 | a blank answer is never correct; choice and map-labelling answers are correct exactly when they equal the correct answer after trimming, up to case |
| AnswerChecker.TextPathIffTextBased | backend/app/Services/AnswerCheckerService.php:54-60 | for the six valid types, the text rules apply exactly to the text-based ones |
| AnswerChecker.WordLimitRejects | backend/app/Services/AnswerCheckerService.php:63-65 | an answer over a non-zero word limit is wrong, whatever its content |
| AnswerChecker.TextAcceptance | backend/app/Services/AnswerCheckerService.php:63-100 | within its limit, a text answer is correct exactly when its normal form equals the correct one, or matches after the hyphen rule, or after one spelling pair, or matches some alternative of a correct answer split at its bars |
| AnswerChecker.EqualNormalFormsAccept | backend/app/Services/AnswerCheckerService.php:67-72 | equal normal forms are enough for a text answer within its limit |
| AnswerChecker.HyphenRuleAccepts | backend/app/Services/AnswerCheckerService.php:75-79 | the hyphen rule alone is enough for a text answer within its limit |
| AnswerChecker.SpellingPairAccepts | backend/app/Services/AnswerCheckerService.php:82-84 | one spelling pair in one direction is enough for a text answer within its limit |
| AnswerChecker.AlternativeAccepts | backend/app/Services/AnswerCheckerService.php:87-98 | one matching alternative is enough for a text answer within its limit |
| AnswerExamples.ChoiceIgnoresCase | backend/app/Services/AnswerCheckerService.php:54-56 | "b" is accepted for the choice "B" |
| AnswerExamples.ChoiceIgnoresPadding | backend/app/Services/AnswerCheckerService.php:51-56 | " b " is accepted for the choice "B" |
| AnswerExamples.ChoiceRejectsOtherLetter | backend/app/Services/AnswerCheckerService.php:54-56 | "c" is rejected for the choice "B" |
| AnswerExamples.EmptyNeverMatches | backend/app/Services/AnswerCheckerService.php:47-49 | an empty or missing answer is rejected, even when the correct answer is empty |
| AnswerExamples.TwoWordsCount | backend/app/Services/AnswerCheckerService.php:116-121 | two words separated by a space count as two |
| AnswerExamples.TwoWordsWithinLimit | backend/app/Services/AnswerCheckerService.php:63-72 | the correct two-word answer passes a limit of two |
| AnswerExamples.ZeroLimitIsNoLimit | backend/app/Services/AnswerCheckerService.php:63 | a word limit of zero imposes no limit |
| AnswerExamples.TwoWordsOverLimit | backend/app/Services/AnswerCheckerService.php:63-65 | even the correct two-word answer fails a limit of one |
| AnswerExamples.SpaceForHyphen | backend/app/Services/AnswerCheckerService.php:75-79 | "a b" is accepted for "a-b" |
| AnswerExamples.HyphenForSpace | backend/app/Services/AnswerCheckerService.php:75-79 | "a-b" is accepted for "a b" |
| AnswerExamples.SpellingPairAccepted | backend/app/Services/AnswerCheckerService.php:82-84 | each single-word spelling pair is accepted in both directions |
| AnswerExamples.ColourAccepted | backend/app/Services/AnswerCheckerService.php:9-43 | with the service's own table, "colour" is accepted for "color" and back |
| AnswerExamples.SpellingInsideWord | backend/app/Services/AnswerCheckerService.php:123-135 | replacement also fires inside longer words: a pair's word followed by more letters is accepted for the other word followed by the same letters |
| AnswerExamples.TiredForTyred | backend/app/Services/AnswerCheckerService.php:9-43 | with the service's own table, "tired" is accepted for "tyred", because the tire/tyre pair fires inside the word |
| AnswerExamples.FirstAlternative | backend/app/Services/AnswerCheckerService.php:87-98 | the word before the bar of a two-alternative answer is accepted on its own |
| AnswerExamples.SecondAlternative | backend/app/Services/AnswerCheckerService.php:87-98 | the word after the bar of a two-alternative answer is accepted on its own |
| BandScore.BandHalves | backend/app/Models/ListeningAttempt.php:43-60 | every band lies in 3.5 .. 9.0; counts above 40 give 9.0 and counts up to 10 give 3.5 |
| BandScore.BandTablesAgree | backend/app/Models/ListeningAttempt.php:45-59 | the per-count table and the reading by ranges of counts give the same band for every count |
| BandScore.BandMonotone | backend/app/Models/ListeningAttempt.php:45-59 | more correct answers never give a lower band |
| BandScore.BandRangeIsExact | backend/app/Models/ListeningAttempt.php:45-59 | the bands reached are exactly the half-bands from 3.5 to 9.0 |
| Attempts.FirstOpen | backend/app/Http/Controllers/ListeningController.php:71-74 | the result is the first open attempt of this user on this test, or none when there is no open attempt |
| Attempts.Start | backend/app/Http/Controllers/ListeningController.php:62-101 | refused exactly for an inactive test; otherwise an open attempt of the caller comes back and is stored at its id; earlier rows are kept |
| Attempts.FreshAttemptInitialValues | backend/app/Http/Controllers/ListeningController.php:84-94 | with no open attempt, one row is added: no answers, count and band 0, 1800 seconds, part 1, no part's audio played |
| Attempts.StartResumes | backend/app/Http/Controllers/ListeningController.php:76-82 | with an open attempt, the table is unchanged and the first open attempt is resumed |
| Attempts.StartTwiceResumes | backend/app/Http/Controllers/ListeningController.php:71-82 | starting again resumes the same attempt and changes nothing |
| Attempts.StartKeepsTableInvariants | backend/app/Http/Controllers/ListeningController.php:62-101 | starting keeps ids equal to positions and keeps at most one open attempt per user and test |
| Attempts.SaveProgress | backend/app/Http/Controllers/ListeningController.php:103-123 | not the owner, then already submitted, are refused in that order; otherwise only the supplied fields change |
| Attempts.MarkAudioPlayed | backend/app/Http/Controllers/ListeningController.php:125-143 | not the owner, then a part outside 1..4, are refused in that order; a submitted attempt is not refused; only the flag map changes and the part is marked played |
| Attempts.MarkAudioKeepsOtherParts | backend/app/Http/Controllers/ListeningController.php:135-137 | marking one part leaves the other parts' flags as they were |
| Attempts.CountTrueIsPositions | backend/app/Http/Controllers/ListeningController.php:161-168 | counting true verdicts one by one gives the number of their positions |
| Attempts.CountIsCorrectPositions | backend/app/Http/Controllers/ListeningController.php:161-168 | the count is the number of questions answered correctly |
| Attempts.CountDependsOnlyOnQuestionKeys | backend/app/Http/Controllers/ListeningController.php:158-168 | answers that agree on every question's number give the same count |
| Attempts.Grade | backend/app/Http/Controllers/ListeningController.php:161-168 | the loop's count is the number of questions answered correctly |
| Attempts.Submit | backend/app/Http/Controllers/ListeningController.php:145-190 | not the owner, then already submitted, are refused in that order; otherwise the attempt is stamped submitted, with the count of correct questions, its band, the answers used, and the supplied time remaining or 0 |
| Attempts.SubmissionIsFinal | backend/app/Http/Controllers/ListeningController.php:109-111 | after a submit, no submit or save by anyone succeeds, while marking audio still does |
| Attempts.SubmittedBand | backend/app/Http/Controllers/ListeningController.php:170-178 | a submitted attempt's band lies in 3.5 .. 9.0 and is the band of its count |
| Attempts.UpdateKeepsTableInvariants | backend/app/Http/Controllers/ListeningController.php:113-117 | writing back a row with the same owner and test, never reopened, keeps the table invariants |
| Attempts.OperationsKeepTableInvariants | backend/app/Http/Controllers/ListeningController.php:103-190 | saving, marking audio and submitting, written back under the attempt's id, keep both table invariants: ids are positions and each user has at most one open attempt per test |
| TestAuthoring.QuestionError | backend/app/Http/Controllers/Admin/ListeningTestController.php:75-97 | a question passes exactly when its type is valid, its text and answer are non-empty, and a choice question has options a to c; an invalid type is reported first |
| TestAuthoring.FirstQuestionError | backend/app/Http/Controllers/Admin/ListeningTestController.php:75-97 | no error exactly when every question passes; otherwise the error of some failing question with no failing question before it |
| TestAuthoring.FirstPartError | backend/app/Http/Controllers/Admin/ListeningTestController.php:51-98 | no error exactly when every part passes; otherwise the error of some failing part with no failing part before it |
| TestAuthoring.ValidateStore | backend/app/Http/Controllers/Admin/ListeningTestController.php:41-98 | anything but exactly four parts is refused first; then the payload passes exactly when every part passes |
| TestAuthoring.BuildQuestion | backend/app/Http/Controllers/Admin/ListeningTestController.php:131-142 | the stored question keeps number, type, text and answer; it has a word limit exactly for text types, 3 unless given; options are copied; a missing text or answer is an undefined-key error |
| TestAuthoring.BuildQuestions | backend/app/Http/Controllers/Admin/ListeningTestController.php:129-143 | one stored question per payload question, and success exactly when every question has a text and an answer |
| TestAuthoring.BuildQuestionsAt | backend/app/Http/Controllers/Admin/ListeningTestController.php:129-142 | the k-th stored question is the k-th payload question built with number last + k + 1 |
| TestAuthoring.BuildParts | backend/app/Http/Controllers/Admin/ListeningTestController.php:116-145 | one stored part per payload part, and success exactly when every part has a title, instructions, and a text and an answer for each question |
| TestAuthoring.BuildPart | backend/app/Http/Controllers/Admin/ListeningTestController.php:118-143 | a part is built exactly when it has a title, instructions, and a text and an answer for each question, and otherwise aborts on the missing key; the built part carries its number, the payload title and instructions, and one question per payload question |
| TestAuthoring.BuildPartsAt | backend/app/Http/Controllers/Admin/ListeningTestController.php:116-143 | in a build from index i, the part at index n is payload part n built under number n+1, its questions numbered on from the payload questions of parts i up to n |
| TestAuthoring.BuiltPartAt | backend/app/Http/Controllers/Admin/ListeningTestController.php:116-143 | the k-th stored part is written from payload part k under number k+1, its questions numbered after all questions of the earlier parts |
| TestAuthoring.QuestionWrittenAt | backend/app/Http/Controllers/Admin/ListeningTestController.php:128-142 | the j-th stored question of a part is written from the j-th payload question: number, type (mcq by default), text, options, answer, and a word limit exactly for text types |
| TestAuthoring.StoreWritesPayload | backend/app/Http/Controllers/Admin/ListeningTestController.php:116-143 | what store writes as part k+1: the payload title and instructions, the audio upload, the image upload or null, and each payload question with its type, text, options, answer and word limit |
| TestAuthoring.UpdateWritesPayload | backend/app/Http/Controllers/Admin/ListeningTestController.php:203-244 | what update writes as part k+1 of four readable parts: the payload title and instructions, the upload or existing path, and each payload question with its type, text, options, answer and word limit |
| TestAuthoring.BuildPartsNumbering | backend/app/Http/Controllers/Admin/ListeningTestController.php:116-129 | the stored questions, read in part order, are numbered consecutively with no gap |
| TestAuthoring.BuildPartsCount | backend/app/Http/Controllers/Admin/ListeningTestController.php:116-145 | the stored parts hold exactly as many questions as the payload |
| TestAuthoring.ValidatedPartsBuild | backend/app/Http/Controllers/Admin/ListeningTestController.php:51-98 | parts that passed validation never abort on a missing key |
| TestAuthoring.Store | backend/app/Http/Controllers/Admin/ListeningTestController.php:31-156 | the validation error, if any, is the answer; otherwise four parts are stored, the test is active unless told otherwise, and the questions are numbered 1, 2, … across parts |
| TestAuthoring.Update | backend/app/Http/Controllers/Admin/ListeningTestController.php:173-257 | given fields are filled in; parts are replaced only for exactly four, otherwise kept; for four parts it succeeds exactly when every part can be read, and a missing key while replacing them rolls everything back |
| TestAuthoring.UpdateKeepsExistingPaths | backend/app/Http/Controllers/Admin/ListeningTestController.php:207-219 | a part with no new upload keeps the existing paths the payload names, "" and null by default |
| TestAuthoring.ZeroIsIncomplete | backend/app/Http/Controllers/Admin/ListeningTestController.php:83-88 | a question text or answer of "0" counts as empty, so the question is refused |
| TestAuthoring.OptionDNotRequired | backend/app/Http/Controllers/Admin/ListeningTestController.php:89-96 | a choice question passes exactly when options a to c are present; option d is not needed |
| TestAuthoring.MissingTypeIsMcq | backend/app/Http/Controllers/Admin/ListeningTestController.php:77 | a question with no type is an mcq, so it is refused without option a |
| TestAuthoring.FirstPartFailureWins | backend/app/Http/Controllers/Admin/ListeningTestController.php:51-98 | the first failing part's error is reported, whatever the later parts hold |
| Contacts.ParseStatus | backend/app/Http/Controllers/Admin/ContactManagementController.php:95-97 | only the stored names of the four statuses are accepted |
| Contacts.ParseStatusName | backend/app/Http/Controllers/Admin/ContactManagementController.php:95-97 | every status name is accepted as its own status |
| Contacts.MarkAsRead | backend/app/Models/Contact.php:59-64 | a new contact becomes read; any other contact is left as it is; nothing but the status changes |
| Contacts.MarkAsReadIdempotent | backend/app/Models/Contact.php:59-64 | marking twice is marking once |
| Contacts.Show | backend/app/Http/Controllers/Admin/ContactManagementController.php:52-61 | a viewed contact is no longer new, and only its status changes |
| Contacts.Reply | backend/app/Http/Controllers/Admin/ContactManagementController.php:70-84 | whatever the status, the contact becomes replied with this reply, time and admin; nothing else changes |
| Contacts.LaterReplyOverwrites | backend/app/Http/Controllers/Admin/ContactManagementController.php:72-77 | a second reply replaces everything the first recorded |
| Contacts.ShowAfterReply | backend/app/Http/Controllers/Admin/ContactManagementController.php:52-84 | viewing a replied contact does not undo the reply |
| Contacts.UpdateStatus | backend/app/Http/Controllers/Admin/ContactManagementController.php:93-106 | refused exactly for a name outside the four; otherwise that status is set and nothing else changes |
| Contacts.AnyTransitionAllowed | backend/app/Http/Controllers/Admin/ContactManagementController.php:93-106 | every status can be set from every status, archived back to new included |
| Base64.SextetRoundTrip | backend/app/Http/Controllers/Auth/PasswordResetController.php:59 | every sextet's alphabet character reads back as that sextet |
| Base64.EncodedLength | backend/app/Providers/AppServiceProvider.php:30 | the encoding has four characters for every started group of three bytes |
| Base64.DecodedLength | backend/app/Http/Controllers/Auth/PasswordResetController.php:59 | four sextets give three bytes, and a final group of two or three gives one byte fewer |
| Base64.SextetsOfChars | backend/app/Http/Controllers/Auth/PasswordResetController.php:59 | alphabet characters read back as the sextets they encode |
| Base64.DecodeEncode | backend/app/Http/Controllers/Auth/PasswordResetController.php:59 | decoding the encoding of any byte string gives it back |
| UrlEncoding.HexRoundTrip | frontend/src/components/auth/ResetPassword.jsx:22-23 | every hex digit urlencode writes reads back as its value |
| UrlEncoding.UrlEncode | backend/app/Providers/AppServiceProvider.php:31 | the output holds only unreserved characters, `+` and `%` |
| UrlEncoding.FormDecodeUrlEncode | frontend/src/components/auth/ResetPassword.jsx:22-23 | the page's form decoding undoes urlencode on every byte string |
| UrlEncoding.EncodedHasNoSeparators | backend/app/Providers/AppServiceProvider.php:31 | the encoded token holds no `&`, `=` or `?` |
| PasswordReset.CombinedToken | backend/app/Providers/AppServiceProvider.php:30 | the combined token is the raw token, then the bar separator, then a part with no bar |
| PasswordReset.CombinedHasOneSeparator | backend/app/Providers/AppServiceProvider.php:30 | a raw token without a bar gives a combined token with exactly one bar |
| PasswordReset.ParseToken | backend/app/Http/Controllers/Auth/PasswordResetController.php:49-59 | the token parses exactly when it holds exactly one bar, otherwise it is an invalid format; the raw token is the text before the bar and the email the base64 decoding of the text after it |
| PasswordReset.Reset | backend/app/Http/Controllers/Auth/PasswordResetController.php:45-93 | format, then email, then broker: success exactly when the email is non-empty and valid and the broker resets; each earlier failure has its own error |
| PasswordReset.RefusedBeforeBroker | backend/app/Http/Controllers/Auth/PasswordResetController.php:49-66 | a bad format or email is refused whatever the broker would say |
| PasswordReset.ParseCombinedToken | backend/app/Http/Controllers/Auth/PasswordResetController.php:49-59 | the combined token of the link parses back into the raw token and the email |
| PasswordReset.ResetLinkRoundTrip | backend/app/Providers/AppServiceProvider.php:29-32 | the reset page reads exactly the combined token from the link's URL, and it parses into the raw token and the email |
| GoogleAuth.SplitName | backend/app/Http/Controllers/Auth/GoogleAuthController.php:48-50 | the first name has no space; a name without a space is all first name; otherwise first name, one space and last name give the name back |
| GoogleAuth.FirstNameIsPrefixBeforeSpace | backend/app/Http/Controllers/Auth/GoogleAuthController.php:48-50 | the first name is exactly the text before the first space |
| GoogleAuth.FindUser | backend/app/Http/Controllers/Auth/GoogleAuthController.php:35-37 | the result is the first user matching the Google id or the email, or none when no user matches |
| GoogleAuth.NewGoogleUser | backend/app/Http/Controllers/Auth/GoogleAuthController.php:52-59 | the new user has the split name, Google's email and id, is verified now, and has no password |
| GoogleAuth.Callback | backend/app/Http/Controllers/Auth/GoogleAuthController.php:35-59 | with no match, a new user is added and signed in; otherwise the first match is signed in, linked and verified when it had no Google id, and otherwise left as it is |
| GoogleAuth.CallbackTouchesOnlySignedInUser | backend/app/Http/Controllers/Auth/GoogleAuthController.php:35-59 | only the signed-in user may change, never their password or email, and they match the profile afterwards |
| GoogleAuth.SecondSignInChangesNothing | backend/app/Http/Controllers/Auth/GoogleAuthController.php:35-59 | a second sign-in with the same account finds the same user and changes nothing |
| GoogleAuth.FirstMatchIsFound | backend/app/Http/Controllers/Auth/GoogleAuthController.php:35-37 | a matching user with no match before it is the one found |

## Left out

- Laravel's request validation rules are not modelled. These are `required`, `max:255`, `boolean`, the file mime and size rules, `in:` on contact status and the ReplyContactRequest rules. Only the outcome of `in:` for statuses is modelled, in `Contacts.ParseStatus`.
- JSON decoding is taken as done. Payload keys are `Option`s, and an explicit JSON `null` is treated like a missing key. A key the source reads without a default (a part's title or instructions, a question's text or answer) raises an undefined-key error when missing; the model returns `MissingKey` and, as the transaction rolls back, changes nothing.
- Integer widths are unbounded. Column widths such as a tinyint part number or an int time remaining, and their overflow, are not modelled.
- File storage is not modelled. Uploading stores files, and `update` deletes the old parts' files; uploads are given as maps from part number to stored path.
- Database transactions and concurrent requests are not modelled. A refusal inside a transaction is a `Failure` with no state change.
- The read-only and delete endpoints are not part of this model. They are the listing and show actions of both listening controllers, the attempts and attempt detail actions, and `destroy`.
- AnswerChecker.Normalize: lower-cases ASCII letters only. The source calls `mb_strtolower`, which also lower-cases non-ASCII letters; Unicode case mapping is out of scope.
- Strings are sequences of characters. UTF-8 decoding and multi-byte characters are not modelled, and PHP byte strings are characters below 256 where bytes matter.
- Email validation (`FILTER_VALIDATE_EMAIL`) is a parameter of `PasswordReset.Reset`. So are the password broker, the clock, database ids and the frontend URL.
- Sending the reset link (`sendResetLink`) and the notification mail itself are not modelled; only the URL the notification builds is.
- GoogleAuth.FindUser: compares emails exactly and takes the lowest position. The database compares emails under a case-insensitive collation that also ignores trailing spaces, and `first()` without an ordering returns an unspecified match; neither is promised by the model.
- The Google callback's token creation, its redirect URL and its exception path are not modelled. Socialite is taken to supply a non-null id, email and name.
- The `question_number` ordering in `submit` is not modelled. The grading count does not depend on question order (`Attempts.CountIsCorrectPositions` counts a set of positions).
- PasswordReset.ResetLinkRoundTrip: holds only for a frontend URL without `?` and a raw token without `|`. The broker's tokens are alphanumeric, so the second holds in practice.
- The spelling table is a parameter of `AnswerChecker.Check`. Properties are proved for every table, and `CheckAnswer` fixes the service's own.
- `trim` and `\s` differ in the source too, and the model keeps both. `trim` strips NUL but not form feed, while `\s` matches form feed but not NUL.
- Alternatives separated by `|` are compared by equality and the spelling rule only, not by the hyphen rule. This is as in the source, and `AnswerChecker.TextAcceptance` states it.
