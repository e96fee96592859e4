# Identity onboarding pipeline — a verified Dafny model

This project models the decision logic of a remote identity-onboarding check. A user uploads an identity
document and records a short video in which they show a one-time password (OTP) with their fingers.
The model covers four parts, plus a module of string helpers:

- **OTP validator** (`otp_validation.dfy`, module `OtpValidation`). It takes the per-frame digit stream
  and reduces it to the distinct digits, ordered by the index of their last occurrence. It keeps those
  digits that occur in the expected OTP and compares the result with the OTP for exact equality.
- **Document OCR selection and field extraction** (`img_processing.dfy`, module `ImgProcessing`).
  - The heuristic transcript score.
  - The choice between the unrotated and the 90° reading, with the +10 bias for the unrotated one.
  - The extraction of name, date of birth and Aadhaar number into the details dictionary.
  - The choice of the largest detected face.
- **Video gesture decoder and liveness gate** (`video_otp.dfy`, module `VideoOtp`).
  - Per frame, the finger count from hand landmarks: the thumb rule by handedness, and tip-above-joint
    for the other four fingers.
  - The `zip` pairing of hands with handedness labels, and the clamp to 0..9.
  - The sampling of frames 0, n//2 and n−1 for face crops, and the 50-pixel crop window.
  - The AND of the face comparisons, which replaces the whole digit sequence by `[]` when it fails.
- **String helpers** (`text.dfy`, module `Text`). The Python string operations the document code relies
  on: `str.split()`, `" ".join`, and the character classes `\s`, `\d` and `\w`.
- **Registration** (`registration.dfy`, module `Registration`).
  - The OTP generator, a rejection-sampling loop over draws from "12345".
  - The username availability rule.
  - The guard of the second registration step, on a session object whose fields the step updates.

The OCR engine, the face detector, the hand tracker, the image comparison and the random source are not
modelled. Their outputs are inputs of the model:

- the transcript fragments per rotation;
- the face boxes per image or frame;
- the landmarks and handedness labels per frame;
- the comparison verdicts;
- the sequence of random draws.

Python floats are modelled as `real`, and Python ints as unbounded `int`/`nat`.

Three places where the code does not do what one would expect of it; the model follows the code:

- **Liveness with no samples.** One would expect a liveness check that compared no face at all to fail.
  The code starts the liveness flag at `True` and ANDs each comparison into it, so a run in which no
  face crop was compared passes the gate (`VideoOtp.GateIsEvery`).
- **More words, lower score.** The comment "More words = Higher score" at
  `backend/model_server/img_processing.py` line 75 suggests that a transcript with strictly more words
  (and no more case mixing or symbols) scores at least as high. The length bonus breaks this: two short
  clean words score less than one clean word more than ten characters longer than both together
  (`ImgProcessing.MoreWordsCanScoreLower`).
- **Rotations tried.** The image processor's docstring speaks of four rotation angles. The code tries
  only 0° and 90°, and so does the model.

## Model

| member | source | states |
|---|---|---|
| OtpValidation.IsValidOtp | backend/otp_validation.py:4-9 | definition of the verdict; an accepted OTP consists of digits and is no longer than the stream; its properties are proved in the lemmas below |
| OtpValidation.Candidate | backend/otp_validation.py:6-8 | every character of the candidate is a character of the expected OTP, and there are no more of them than frames |
| OtpValidation.InExpected | backend/otp_validation.py:8 | definition of `str(val) in expected_otp`: only one-digit values can match; used by `Keep` and `KeepMembers` |
| OtpValidation.DigitValue | backend/otp_validation.py:6 | a digit character is `str(v)` of exactly one value v in 0..9, so the character and integer views of a digit agree |
| OtpValidation.LastOccurrence | backend/otp_validation.py:6 | the dictionary's keys are exactly the values of the stream, and each maps to the index of that value's last occurrence |
| OtpValidation.Reduce | backend/otp_validation.py:6-7 | the reduced stream holds exactly the stream's values, each once, and is no longer than the stream |
| OtpValidation.ReduceSortedByLastOccurrence | backend/otp_validation.py:6-7 | the reduced stream is in increasing order of last-occurrence index |
| OtpValidation.SortedUnique | backend/otp_validation.py:7 | two duplicate-free sequences with the same members, both sorted by the same distinct keys, are equal, so the sort result is determined |
| OtpValidation.ReduceIsSortedKeys | backend/otp_validation.py:6-7 | every duplicate-free ordering of the dictionary's keys by their last-occurrence index is the reduced stream |
| OtpValidation.Keep | backend/otp_validation.py:8 | every value the filter keeps prints as a character of the expected OTP, and the filter never lengthens the list |
| OtpValidation.KeepMembers | backend/otp_validation.py:8 | the filter keeps exactly the values whose `str` is a character of the expected OTP |
| OtpValidation.KeepDistinct | backend/otp_validation.py:8 | filtering a duplicate-free sequence leaves it duplicate-free |
| OtpValidation.CandidateDistinct | backend/otp_validation.py:6-8 | each digit appears at most once in the candidate compared with the OTP |
| OtpValidation.RepeatedExpectedFails | backend/otp_validation.py:6-9 | an expected OTP with a repeated digit is never matched, whatever the stream |
| OtpValidation.EmptyStream | backend/otp_validation.py:6-9 | an empty stream is valid exactly when the expected OTP is empty, so it fails every 4-digit OTP |
| OtpValidation.KeepConcat | backend/otp_validation.py:8 | the filter distributes over concatenation |
| OtpValidation.KeepReduceCommute | backend/otp_validation.py:6-8 | filtering then reducing equals reducing then filtering |
| OtpValidation.ValidityDependsOnKept | backend/otp_validation.py:6-9 | two streams that agree once the unexpected values are removed get the same verdict |
| OtpValidation.InsertUnexpected | backend/otp_validation.py:8 | inserting a value that is not in the expected OTP at any position never changes the verdict |
| OtpValidation.AppendUnexpected | backend/otp_validation.py:8 | appending a value that is not in the expected OTP never changes the verdict |
| OtpValidation.ReduceStutter | backend/otp_validation.py:6-7 | repeating every element k ≥ 1 times in place leaves the reduced stream unchanged |
| OtpValidation.StutterInvariant | backend/otp_validation.py:6-7 | repeating every element k ≥ 1 times in place never changes the verdict |
| OtpValidation.ReduceDistinct | backend/otp_validation.py:6-7 | a stream without repetitions is its own reduction |
| OtpValidation.ReduceReshownTwice | backend/otp_validation.py:6-7 | `[1,2,1,2,3]` reduces to `[1,2,3]`: the early 1 and 2 are superseded by their re-showings |
| OtpValidation.ShowingOtpInOrderPasses | backend/otp_validation.py:6-9 | showing each digit of a duplicate-free OTP once, in order, is accepted |
| OtpValidation.ExampleReshownInOrder | backend/otp_validation.py:6-9 | `[1,2,1,2,3]` against "123" is accepted |
| OtpValidation.ExampleReversed | backend/otp_validation.py:6-9 | `[3,2,1]` against "123" is rejected |
| OtpValidation.ExampleReshowBreaksOrder | backend/otp_validation.py:6-9 | a late re-showing moves a digit to its last position: `[1,2,3,1]` against "123" is rejected |
| OtpValidation.ExampleReshowMovesDigit | backend/otp_validation.py:6-9 | `[1,2,3,1]` against "231" is accepted |
| OtpValidation.ExampleNoiseIgnored | backend/otp_validation.py:6-9 | a digit outside the OTP is ignored: `[1,7,2,3]` against "123" is accepted |
| Text.Words | backend/model_server/img_processing.py:73 | `split()` yields non-empty words without whitespace |
| Text.IsSpace | backend/model_server/img_processing.py:73 | definition of `str.isspace()`, the separator of `split()`; its use is proved about in `Text.SplitBlank` and `Text.WordsCharacters` |
| Text.WordsCharacters | backend/model_server/img_processing.py:73 | the words, put back together, are exactly the non-whitespace characters of the text in order, so their total length is the number of such characters |
| Text.Join | backend/model_server/img_processing.py:59 | `" ".join` of n ≥ 1 words has their total length plus n − 1 separators; `Text.SplitJoin` proves it is undone by `split()` |
| Text.SplitBlank | backend/model_server/img_processing.py:73 | an all-whitespace text has no words |
| Text.SplitJoin | backend/model_server/img_processing.py:58-59 | splitting the space-joined words gives the words back |
| Text.LastN | backend/model_server/img_processing.py:59 | `words[-3:]` (or all words when there are fewer than 3) is the suffix of length min(3, n) |
| ImgProcessing.TextScore | backend/model_server/img_processing.py:73-91 | definition of the score formula; its properties are proved in `GetTextScore`, `BlankScoresZero`, `AppendWordScore`, `SingleWordScore` and `MoreWordsCanScoreLower` |
| ImgProcessing.HasMixedCase | backend/model_server/img_processing.py:81 | definition of the search for three case-flipping pairs; counted once per word by `MixedCount` |
| ImgProcessing.SpecialCount | backend/model_server/img_processing.py:88 | at most one penalty per character of the text |
| ImgProcessing.SpecialCountZero | backend/model_server/img_processing.py:88 | the special-character penalty is 0 exactly when no character of the text is in the special set |
| ImgProcessing.GetTextScore | backend/model_server/img_processing.py:73-91 | the loop's score is 2 per word, plus total word length / 5, minus 2 per mixed-case word, minus 3 per special character |
| ImgProcessing.MixedCount | backend/model_server/img_processing.py:79-82 | at most one penalty per word, however many mixed-case runs it contains |
| ImgProcessing.BlankScoresZero | backend/model_server/img_processing.py:73-91 | an empty or all-whitespace text scores exactly 0 |
| ImgProcessing.AppendWordScore | backend/model_server/img_processing.py:73-91 | appending a word changes the score by that word's own contribution |
| ImgProcessing.AppendCleanWordRaisesScore | backend/model_server/img_processing.py:73-91 | appending a word without case mixing or special characters strictly raises the score |
| ImgProcessing.SingleWordScore | backend/model_server/img_processing.py:73-91 | a one-word text scores 2 + length/5 minus that word's penalties |
| ImgProcessing.MoreWordsCanScoreLower | backend/model_server/img_processing.py:75-85 | a transcript with more clean words can score strictly lower than one with fewer |
| ImgProcessing.SelectBest | backend/model_server/img_processing.py:127-146 | the loop picks a candidate of maximal biased score, earlier than any other maximal one, and finds none only for an empty list |
| ImgProcessing.ZeroWinsUnlessBeaten | backend/model_server/img_processing.py:127-143 | the unrotated reading wins exactly when its score + 10 is at least the rotated one's, so it wins every tie |
| ImgProcessing.DobAt | backend/model_server/img_processing.py:47 | definition of a date-of-birth match at a position; `FindDobNone`, `FindDobMatches` and `FindDobLeftmost` relate it to the search |
| ImgProcessing.FindDob | backend/model_server/img_processing.py:47-49 | a match found starts inside the text, at or after where the search began |
| ImgProcessing.SeparatorRun | backend/model_server/img_processing.py:47 | the run of `[:\s]` characters is maximal and stays inside the text |
| ImgProcessing.LazySeparatorsEndAtRun | backend/model_server/img_processing.py:47 | the lazy `[:\s]*?` followed by a date can only stop at the end of the separator run |
| ImgProcessing.FindDobNone | backend/model_server/img_processing.py:47-48 | the date-of-birth search fails only when the pattern matches nowhere |
| ImgProcessing.FindDobMatches | backend/model_server/img_processing.py:47-49 | a found match is a match, and its group is the ten characters after "DOB" and the separators |
| ImgProcessing.FindDobLeftmost | backend/model_server/img_processing.py:47 | no match starts before the one found |
| ImgProcessing.AadhaarAt | backend/model_server/img_processing.py:52 | definition of a `\b\d{4} \d{4} \d{4}\b` match at a position; `FindAadhaarLeftmost` relates it to the search |
| ImgProcessing.FindAadhaar | backend/model_server/img_processing.py:52-54 | the group found is 14 characters long |
| ImgProcessing.FindAadhaarLeftmost | backend/model_server/img_processing.py:52-54 | the Aadhaar search returns the leftmost `\b\d{4} \d{4} \d{4}\b` match, and fails only when there is none |
| ImgProcessing.NameFor | backend/model_server/img_processing.py:56-59 | without a date-of-birth match the name is the sentinel; otherwise it splits back into the last min(3, n) words before "DOB", so into at most three words |
| ImgProcessing.ExtractDetails | backend/model_server/img_processing.py:42-62 | the dictionary has the four initial entries unchanged, `dob` and `aadhaar_number` exactly when their patterns match, and `name` always; without a match `name` is the sentinel, otherwise it re-splits into the last min(3, n) words before "DOB" |
| ImgProcessing.NameWords | backend/model_server/img_processing.py:58-59 | the stored name consists of at most three words, which are those before "DOB" |
| ImgProcessing.DetailsForUnique | backend/model_server/img_processing.py:42-62 | the description of the result determines the dictionary completely |
| ImgProcessing.NoDobMeansSentinel | backend/model_server/img_processing.py:56-60 | when the date-of-birth pattern matches nowhere, `name` is "best_textNot Found" and there is no `dob` |
| ImgProcessing.PerformOcr | backend/model_server/img_processing.py:121-157 | an unreadable image gives "Image could not be processed."; otherwise the details come from the reading that wins the biased comparison, and "No meaningful text found." never happens |
| ImgProcessing.LargestFace | backend/model_server/img_processing.py:185 | the chosen box has maximal area and no earlier box has the same area |
| ImgProcessing.ExtractFace | backend/model_server/img_processing.py:174-185 | no face exactly when nothing is detected, otherwise the first box of largest area |
| VideoOtp.ThumbUp | backend/model_server/server.py:142 | definition of the handedness-dependent thumb rule; `VideoOtp.MirroredHandCountsTheSame` proves it mirror-symmetric |
| VideoOtp.Raised | backend/model_server/server.py:146 | definition of a raised finger (tip above the joint below it); counted by `CountRaised` |
| VideoOtp.CountRaised | backend/model_server/server.py:145-148 | each fingertip adds at most one, so four tips count at most 4 |
| VideoOtp.CountRaisedExtremes | backend/model_server/server.py:145-148 | the count of raised fingers is 0 exactly when none is raised and equals the number of tips exactly when all are |
| VideoOtp.HandCount | backend/model_server/server.py:142-150 | a hand counts at most 5: four fingers and the thumb |
| VideoOtp.HandCountExtremes | backend/model_server/server.py:142-150 | a hand counts 0 exactly when no finger or thumb is up and 5 exactly when all are |
| VideoOtp.MirroredHandCountsTheSame | backend/model_server/server.py:142-150 | the thumb rule is mirror-symmetric: a right hand counts as its mirror image labelled left |
| VideoOtp.PairsTotal | backend/model_server/server.py:139-150 | k hand/label pairs show at most 5k fingers |
| VideoOtp.ZipTotal | backend/model_server/server.py:139-150 | a frame shows at most 5 fingers per hand and at most 5 per handedness label, since `zip` pairs them |
| VideoOtp.UnlabelledHandsIgnored | backend/model_server/server.py:139 | `zip` truncates: hands beyond the last handedness label add nothing |
| VideoOtp.Clamp | backend/model_server/server.py:152 | the digit is in 0..9, equal to the count when that is in range and 9 above it |
| VideoOtp.FrameTotal | backend/model_server/server.py:137-150 | the per-frame loop adds up the counts of the zipped pairs, at most 5 per pair |
| VideoOtp.TwoHandsClampOnlyTen | backend/model_server/server.py:113-152 | with at most two hands a frame shows at most ten fingers, and only ten is changed by the clamp |
| VideoOtp.FrameDigit | backend/model_server/server.py:137-152 | every frame yields a digit in 0..9 |
| VideoOtp.SelectedFrames | backend/model_server/server.py:116 | definition of `[0, n // 2, n - 1]`; `SelectedFramesInVideo` proves the indices are frames of the video |
| VideoOtp.SelectedFramesInVideo | backend/model_server/server.py:115-116 | for a video of n ≥ 1 frames the sampled indices are frames of it, from the first to the last, middle included |
| VideoOtp.CropWindow | backend/model_server/server.py:128-130 | the crop lies inside the frame, contains the box when the box lies inside the frame, and extends exactly 50 pixels beyond it on each side unless the frame edge cuts it |
| VideoOtp.SampleFrame | backend/model_server/server.py:123-130 | the sampling step crops a frame exactly when its index is selected and a face was detected, around the largest face |
| VideoOtp.CropOf | backend/model_server/server.py:123-130 | a frame gets a crop exactly when it is sampled and a face was detected in it |
| VideoOtp.Samples | backend/model_server/server.py:116-132 | the frames read yield at most one crop each |
| VideoOtp.SamplesOrdered | backend/model_server/server.py:116-132 | crops are written only for sampled frames that were read, in frame order, one per frame |
| VideoOtp.AtMostThreeCrops | backend/model_server/server.py:116-132 | at most three face crops are written per video |
| VideoOtp.Digits | backend/model_server/server.py:118-153 | one digit per frame read, each in 0..9 |
| VideoOtp.Gate | backend/model_server/server.py:155-158 | definition of the AND fold over the comparisons; `GateIsEvery` proves what it means |
| VideoOtp.GateIsEvery | backend/model_server/server.py:155-158 | the flag is true exactly when every comparison passed, in particular when there was none |
| VideoOtp.Output | backend/model_server/server.py:161 | the result is either the whole digit sequence or empty |
| VideoOtp.ReadStep | backend/model_server/server.py:118-153 | reading one more frame appends exactly its digit and its crop, if any |
| VideoOtp.ReadFrames | backend/model_server/server.py:114-153 | the frame loop produces one clamped count per frame and the crops of the sampled frames with a face |
| VideoOtp.LivenessFlag | backend/model_server/server.py:155-158 | the flag loop computes the AND of the comparisons, starting from true |
| VideoOtp.ProcessVideo | backend/model_server/server.py:104-161 | an unopened video yields `[]`; otherwise the digits of all frames when every comparison passed, `[]` when one failed, plus the crops of the sampled frames |
| VideoOtp.FailedLivenessRejects | backend/model_server/server.py:155-161 | when one face comparison fails, the validator rejects every non-empty OTP |
| VideoOtp.PassedLivenessKeepsDigits | backend/model_server/server.py:155-161 | when every comparison passes, all the frame digits reach the validator unchanged |
| Registration.FirstOccurrences | frontend/components/registration.py:42-47 | the digits kept are pairwise distinct and no more than the draws |
| Registration.FirstOccurrencesMembers | frontend/components/registration.py:44-47 | exactly the values drawn are kept |
| Registration.RepeatedDrawDiscarded | frontend/components/registration.py:45-47 | a draw already kept leaves the digits unchanged, and a new one is appended |
| Registration.FirstOccurrencesPrefix | frontend/components/registration.py:44-47 | more draws only extend the digits kept, never shorten or reorder them |
| Registration.OtpFrom | frontend/components/registration.py:39-49 | the password the draws give has four pairwise distinct digits, and there is none exactly when fewer than four distinct values were drawn |
| Registration.StopAtFour | frontend/components/registration.py:44-49 | once four distinct digits are kept, later draws do not matter |
| Registration.GenerateOtp | frontend/components/registration.py:39-49 | the loop returns the first four distinct draws, in draw order, and nothing only when the draws run out first |
| Registration.GeneratedOtpWellFormed | frontend/components/registration.py:39-49 | the OTP has length 4, its digits come from "12345" and are pairwise distinct, so consecutive digits differ |
| Registration.FourDistinctDrawsSuffice | frontend/components/registration.py:42-47 | draws that never repeat give the first four draws as the OTP |
| Registration.GeneratedOtpShownInOrderPasses | frontend/components/registration.py:39-49 | showing a generated OTP one digit at a time, in order, passes the validator |
| Registration.UsernameAvailable | frontend/components/registration.py:150-160 | a name is taken exactly when its folder and record exist and `reg_complete` is true |
| Registration.CanAdvance | frontend/components/registration.py:213-219 | definition of the second step's guard; `SaveRegInfo` proves the step advances exactly when it holds |
| Registration.RegistrationSession.SaveRegInfo | frontend/components/registration.py:212-234 | with phone, date of birth and password filled in and the password confirmed, the record is written with `reg_complete` false and the step becomes 3; otherwise nothing changes |
| Registration.IncompleteRegistrationKeepsNameAvailable | frontend/components/registration.py:224-231 | a registration abandoned after step 2 leaves the username available |

## Left out

- Image decoding and numerics are not modelled: `imread`, `imwrite`, `cvtColor`, `bilateralFilter`,
  `resize`, `rotate_image` (its rotation matrix and `warpAffine`), and cutting and resizing the crops.
  These are floating-point image operations in foreign libraries.
- The OCR engine, the Haar-cascade detector, the hand tracker and the SSIM comparison are not modelled.
  Their results are inputs.
- The file system is not modelled: the `face_valid` directory, its stale crops from earlier runs, and the
  paths returned. The face comparisons are a given list of verdicts, one per image file in the directory.
- Ray Serve, the async request handlers, the HTTP layer (`backend/fast_api_server.py`), the Streamlit pages,
  the YAML reads and writes, and the logging transport are out of scope. They are transport, UI and I/O.
- The page navigation besides the second step's "Next" button is not modelled, and neither are the
  document upload or the video recording.
- `hash_password` is a SHA-256 library call. The stored record keeps the password that is handed to it.
- A YAML record that parses to something other than a mapping is not modelled. The source would fail on
  `get` there.
- `\d` and `\w` are modelled as ASCII. Python also matches other Unicode digits and letters.
- `ImgProcessing.TextScore` uses exact `real` arithmetic. Float rounding of `/ 5` is not modelled.
- `Registration.GenerateOtp` takes a finite list of draws and returns None when it runs out. The source
  keeps drawing forever.
- `VideoOtp.WellFormed` takes the tracker's guarantee of 21 landmarks per hand as a precondition.
