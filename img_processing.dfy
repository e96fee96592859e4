/** The document side of the pipeline: the OCR transcript quality score, the
    choice of the best rotation, the extraction of name, date of birth and
    Aadhaar number from the winning transcript, and the choice of the
    largest detected face. The OCR reader and the face detector are not
    modelled: their outputs (the text fragments read at each rotation and the
    list of detected boxes) are inputs. */
module ImgProcessing {
  import opened Options
  import opened Text

  // ---------------------------------------------------------------------
  // get_text_score

  /** The characters that cost 3 points for every occurrence in the text. */
  const SpecialChars: string := "/\\|@#%^&*()_+=[]{}<>"

  predicate IsUpper(c: char) { 'A' <= c <= 'Z' }
  predicate IsLower(c: char) { 'a' <= c <= 'z' }

  /** One alternative of `[A-Z][a-z]|[a-z][A-Z]`. */
  predicate CaseFlip(a: char, b: char) {
    (IsUpper(a) && IsLower(b)) || (IsLower(a) && IsUpper(b))
  }

  /** Three consecutive case-flipping pairs start at `i`. */
  predicate FlipRunAt(w: string, i: nat)
    requires i + 6 <= |w|
  {
    CaseFlip(w[i], w[i + 1]) && CaseFlip(w[i + 2], w[i + 3]) && CaseFlip(w[i + 4], w[i + 5])
  }

  /** `re.search(r"(?:[A-Z][a-z]|[a-z][A-Z]){3,}", w)` succeeds: a match of
      three or more pairs exists exactly when one of three pairs does. */
  predicate HasMixedCase(w: string) {
    exists i: nat :: i + 6 <= |w| && FlipRunAt(w, i)
  }

  /** The number of words that draw the mixed-case penalty. */
  function MixedCount(ws: seq<string>): (n: nat)
    ensures n <= |ws|
  {
    if ws == [] then 0
    else MixedCount(ws[..|ws| - 1]) + (if HasMixedCase(ws[|ws| - 1]) then 1 else 0)
  }

  /** The number of characters of the text drawn from SpecialChars: at
      most one per character. */
  function SpecialCount(s: string): (n: nat)
    ensures n <= |s|
  {
    if s == [] then 0 else (if s[0] in SpecialChars then 1 else 0) + SpecialCount(s[1..])
  }

  /** No special-character penalty exactly when no character is special. */
  lemma {:induction false} SpecialCountZero(s: string)
    ensures SpecialCount(s) == 0 <==> forall i :: 0 <= i < |s| ==> s[i] !in SpecialChars
  {
    if s != [] {
      SpecialCountZero(s[1..]);
      assert forall i :: 1 <= i < |s| ==> s[i] == s[1..][i - 1];
    }
  }

  /** The score `get_text_score` assigns to a transcript. */
  function TextScore(text: string): real {
    var ws := Words(text);
    (2 * |ws|) as real + TotalLength(ws) as real / 5.0
      - (2 * MixedCount(ws)) as real - (3 * SpecialCount(text)) as real
  }

  /** `get_text_score`: the mixed-case penalty is accumulated word by word. */
  method GetTextScore(text: string) returns (score: real)
    ensures score == TextScore(text)
  {
    var words := Words(text);
    var wordCountScore := |words| * 2;
    var mixPenalty := 0;
    var i := 0;
    while i < |words|
      invariant 0 <= i <= |words|
      invariant mixPenalty == 2 * MixedCount(words[..i])
    {
      assert words[..i + 1][..i] == words[..i];
      if HasMixedCase(words[i]) {
        mixPenalty := mixPenalty + 2;
      }
      i := i + 1;
    }
    assert words[..i] == words;
    var wordLengthBonus := TotalLength(words) as real / 5.0;
    var specialCharPenalty := 3 * SpecialCount(text);
    score := wordCountScore as real + wordLengthBonus - mixPenalty as real - specialCharPenalty as real;
  }

  lemma {:induction false} SpecialCountAppend(a: string, b: string)
    ensures SpecialCount(a + b) == SpecialCount(a) + SpecialCount(b)
  {
    if a == [] {
      assert a + b == b;
    } else {
      assert (a + b)[0] == a[0] && (a + b)[1..] == a[1..] + b;
      SpecialCountAppend(a[1..], b);
    }
  }

  /** Empty or all-whitespace text scores exactly 0. */
  lemma {:induction false} BlankScoresZero(text: string)
    requires forall i :: 0 <= i < |text| ==> IsSpace(text[i])
    ensures TextScore(text) == 0.0
  {
    SplitBlank(text);
    BlankHasNoSpecials(text);
  }

  lemma {:induction false} BlankHasNoSpecials(text: string)
    requires forall i :: 0 <= i < |text| ==> IsSpace(text[i])
    ensures SpecialCount(text) == 0
  {
    if text != [] {
      assert text[0] !in SpecialChars by {
        assert IsSpace(text[0]);
        assert forall i :: 0 <= i < |SpecialChars| ==> !IsSpace(SpecialChars[i]);
      }
      BlankHasNoSpecials(text[1..]);
    }
  }

  lemma WordsAppendWord(text: string, w: string)
    requires IsWord(w)
    ensures Words(text + " " + w) == Words(text) + [w]
  {
    assert text + " " + w == text + [' '] + w;
    SplitAtSpace(text, ' ', w, []);
    SplitWord(w, []);
    assert [] + w == w;
  }

  lemma MixedCountAppend(ws: seq<string>, w: string)
    ensures MixedCount(ws + [w]) == MixedCount(ws) + (if HasMixedCase(w) then 1 else 0)
  {
    assert (ws + [w])[..|ws|] == ws;
  }

  lemma SpecialCountAppendWord(text: string, w: string)
    ensures SpecialCount(text + " " + w) == SpecialCount(text) + SpecialCount(w)
  {
    assert text + " " + w == text + ([' '] + w);
    SpecialCountAppend(text, [' '] + w);
    SpecialCountAppend([' '], w);
  }

  /** Appending one more word after a space changes the score by that word's
      own contribution: +2, +length/5, -2 if it is mixed-case, -3 per
      special character. */
  lemma AppendWordScore(text: string, w: string)
    requires IsWord(w)
    ensures TextScore(text + " " + w) ==
      TextScore(text) + 2.0 + |w| as real / 5.0
        - (if HasMixedCase(w) then 2.0 else 0.0) - (3 * SpecialCount(w)) as real
  {
    var ws := Words(text);
    WordsAppendWord(text, w);
    MixedCountAppend(ws, w);
    TotalLengthAppend(ws, [w]);
    assert TotalLength([w]) == |w|;
    SpecialCountAppendWord(text, w);
  }

  /** So appending a clean word (no case mixing, no special character)
      strictly raises the score. */
  lemma AppendCleanWordRaisesScore(text: string, w: string)
    requires IsWord(w) && !HasMixedCase(w) && SpecialCount(w) == 0
    ensures TextScore(text + " " + w) > TextScore(text)
  {
    AppendWordScore(text, w);
  }

  /** A text made of one word scores that word's own contribution. */
  lemma SingleWordScore(w: string)
    requires IsWord(w)
    ensures TextScore(w) ==
      2.0 + |w| as real / 5.0 - (if HasMixedCase(w) then 2.0 else 0.0) - (3 * SpecialCount(w)) as real
  {
    SplitWord(w, []);
    assert [] + w == w;
    var none: seq<string> := [];
    MixedCountAppend(none, w);
    assert none + [w] == [w];
    assert TotalLength([w]) == |w|;
  }

  /** Having more words does not by itself mean a higher score: two clean
      words score less than one clean word that is more than ten characters
      longer than both together. */
  lemma MoreWordsCanScoreLower(a: string, b: string, w: string)
    requires IsWord(a) && IsWord(b) && IsWord(w)
    requires !HasMixedCase(a) && !HasMixedCase(b) && !HasMixedCase(w)
    requires SpecialCount(a) == 0 && SpecialCount(b) == 0 && SpecialCount(w) == 0
    requires |a| + |b| + 10 < |w|
    ensures |Words(a + " " + b)| == 2 && |Words(w)| == 1
    ensures TextScore(a + " " + b) < TextScore(w)
  {
    SingleWordScore(a);
    SingleWordScore(w);
    AppendWordScore(a, b);
    WordsAppendWord(a, b);
    SplitWord(a, []);
    SplitWord(w, []);
    assert [] + a == a && [] + w == w;
  }

  // ---------------------------------------------------------------------
  // The rotation loop of perform_ocr

  /** The rotations tried, in order. */
  const Rotations: seq<int> := [0, 90]

  /** The score with the +10 bias toward the unrotated reading. */
  function Biased(angle: int, text: string): real {
    TextScore(text) + (if angle == 0 then 10.0 else 0.0)
  }

  /** Candidate `k` has the highest biased score and no earlier candidate
      ties it (the loop replaces the best only on a strictly higher score). */
  predicate IsFirstBest(angles: seq<int>, texts: seq<string>, k: nat)
    requires |angles| == |texts|
  {
    k < |angles| &&
    (forall j :: 0 <= j < |angles| ==> Biased(angles[j], texts[j]) <= Biased(angles[k], texts[k])) &&
    (forall j :: 0 <= j < k ==> Biased(angles[j], texts[j]) < Biased(angles[k], texts[k]))
  }

  /** The selection loop: `best_score` starts at minus infinity (None here)
      and is replaced whenever a candidate scores strictly higher. The result
      is None exactly when the loop never updates it, which is the
      "No meaningful text found." branch. */
  method SelectBest(angles: seq<int>, texts: seq<string>) returns (best: Option<nat>)
    requires |angles| == |texts|
    ensures best.None? <==> angles == []
    ensures best.Some? ==> IsFirstBest(angles, texts, best.value)
  {
    var bestScore: Option<real> := None;
    best := None;
    for k := 0 to |angles|
      invariant best.None? <==> k == 0
      invariant bestScore.None? <==> k == 0
      invariant best.Some? ==>
        best.value < k && bestScore.Some? && bestScore.value == Biased(angles[best.value], texts[best.value])
      invariant best.Some? ==> forall j :: 0 <= j < k ==> Biased(angles[j], texts[j]) <= bestScore.value
      invariant best.Some? ==> forall j :: 0 <= j < best.value ==> Biased(angles[j], texts[j]) < bestScore.value
    {
      var score := GetTextScore(texts[k]);
      if angles[k] == 0 {
        score := score + 10.0;
      }
      if bestScore.None? || score > bestScore.value {
        bestScore := Some(score);
        best := Some(k);
      }
    }
  }

  /** With the two rotations 0 and 90, the unrotated reading wins exactly
      when its score plus 10 is at least the rotated reading's score; in
      particular it wins every tie. */
  lemma ZeroWinsUnlessBeaten(texts: seq<string>, k: nat)
    requires |texts| == 2
    requires IsFirstBest(Rotations, texts, k)
    ensures k == 0 <==> TextScore(texts[0]) + 10.0 >= TextScore(texts[1])
  {
    assert Biased(Rotations[0], texts[0]) == TextScore(texts[0]) + 10.0;
    assert Biased(Rotations[1], texts[1]) == TextScore(texts[1]);
  }

  // ---------------------------------------------------------------------
  // extract_details

  /** A value of the details dictionary. */
  datatype FieldValue = Null | Str(text: string)

  /** The name stored when no date of birth is found. */
  const NameNotFound: string := "best_textNot Found"

  /** `\d{2}/\d{2}/\d{4}` matches at `p`. */
  predicate DateAt(s: string, p: nat) {
    p + 10 <= |s| &&
    IsDigit(s[p]) && IsDigit(s[p + 1]) && s[p + 2] == '/' &&
    IsDigit(s[p + 3]) && IsDigit(s[p + 4]) && s[p + 5] == '/' &&
    IsDigit(s[p + 6]) && IsDigit(s[p + 7]) && IsDigit(s[p + 8]) && IsDigit(s[p + 9])
  }

  /** One character of the class `[:\s]`. */
  predicate IsSeparator(c: char) {
    c == ':' || IsSpace(c)
  }

  /** The length of the run of `[:\s]` characters starting at `p`. */
  function SeparatorRun(s: string, p: nat): (k: nat)
    ensures p + k <= |s| || (p >= |s| && k == 0)
    ensures forall j :: p <= j < p + k ==> IsSeparator(s[j])
    ensures p + k < |s| ==> !IsSeparator(s[p + k])
    decreases |s| - p
  {
    if p < |s| && IsSeparator(s[p]) then 1 + SeparatorRun(s, p + 1) else 0
  }

  /** `DOB[:\s]*?(\d{2}/\d{2}/\d{4})` matches at `i`, the date group starting
      after the whole run of separators. */
  predicate DobAt(s: string, i: nat) {
    i + 3 <= |s| && s[i..i + 3] == "DOB" && DateAt(s, DateStart(s, i))
  }

  /** Where the date group of a match starting at `i` begins: after "DOB"
      and the whole separator run. */
  function DateStart(s: string, i: nat): nat {
    i + 3 + SeparatorRun(s, i + 3)
  }

  /** The lazy `[:\s]*?` can only stop at the end of the separator run,
      because a date starts with a digit, which is not a separator. */
  lemma LazySeparatorsEndAtRun(s: string, p: nat, k: nat)
    requires p + k <= |s|
    requires forall j :: p <= j < p + k ==> IsSeparator(s[j])
    requires DateAt(s, p + k)
    ensures k == SeparatorRun(s, p)
  {
  }

  /** A match of the date-of-birth pattern: where it starts (`match.start()`)
      and the date it captured (`match.group(1)`). */
  datatype DobMatch = DobMatch(start: nat, date: string)

  /** `re.search` for the date-of-birth pattern from position `i` on. */
  function FindDob(s: string, i: nat): (m: Option<DobMatch>)
    ensures m.Some? ==> i <= m.value.start && m.value.start + 3 <= |s|
    decreases |s| - i
  {
    if i + 3 > |s| then None
    else if DobAt(s, i) then
      Some(DobMatch(i, s[DateStart(s, i)..DateStart(s, i) + 10]))
    else FindDob(s, i + 1)
  }

  /** The search finds nothing only when there is no match at all. */
  lemma {:induction false} FindDobNone(s: string, i: nat)
    requires FindDob(s, i).None?
    ensures forall j :: i <= j ==> !DobAt(s, j)
    decreases |s| - i
  {
    if i + 3 <= |s| {
      FindDobNone(s, i + 1);
    }
  }

  /** A match found is a match, and its date is the ten characters after
      the separator run. */
  lemma {:induction false} FindDobMatches(s: string, i: nat)
    requires FindDob(s, i).Some?
    ensures DobAt(s, FindDob(s, i).value.start)
    ensures var p := DateStart(s, FindDob(s, i).value.start);
            p + 10 <= |s| && FindDob(s, i).value.date == s[p..p + 10]
    decreases |s| - i
  {
    if DobAt(s, i) {
      var p := DateStart(s, i);
      assert FindDob(s, i) == Some(DobMatch(i, s[p..p + 10]));
    } else {
      assert FindDob(s, i) == FindDob(s, i + 1);
      FindDobMatches(s, i + 1);
    }
  }

  /** No match starts before the one found. */
  lemma {:induction false} FindDobLeftmost(s: string, i: nat)
    requires FindDob(s, i).Some?
    ensures forall j :: i <= j < FindDob(s, i).value.start ==> !DobAt(s, j)
    decreases |s| - i
  {
    if !DobAt(s, i) {
      FindDobLeftmost(s, i + 1);
    }
  }

  /** `\b\d{4} \d{4} \d{4}\b` matches at `i`. */
  predicate AadhaarAt(s: string, i: nat) {
    i + 14 <= |s| &&
    (forall j :: i <= j < i + 14 && j != i + 4 && j != i + 9 ==> IsDigit(s[j])) &&
    s[i + 4] == ' ' && s[i + 9] == ' ' &&
    (i == 0 || !IsWordChar(s[i - 1])) &&
    (i + 14 == |s| || !IsWordChar(s[i + 14]))
  }

  /** `re.search` for the Aadhaar pattern from position `i` on, giving
      `match.group(0)`. */
  function FindAadhaar(s: string, i: nat): (m: Option<string>)
    ensures m.Some? ==> |m.value| == 14
    decreases |s| - i
  {
    if i + 14 > |s| then None
    else if AadhaarAt(s, i) then Some(s[i..i + 14])
    else FindAadhaar(s, i + 1)
  }

  /** The search gives the leftmost match, and nothing only when there is
      no match at all. */
  lemma {:induction false} FindAadhaarLeftmost(s: string, i: nat)
    ensures FindAadhaar(s, i).None? ==> forall j :: i <= j ==> !AadhaarAt(s, j)
    ensures FindAadhaar(s, i).Some? ==>
      exists j :: i <= j && AadhaarAt(s, j) && FindAadhaar(s, i).value == s[j..j + 14] &&
                  forall j' :: i <= j' < j ==> !AadhaarAt(s, j')
    decreases |s| - i
  {
    if i + 14 <= |s| && !AadhaarAt(s, i) {
      FindAadhaarLeftmost(s, i + 1);
    }
  }

  /** The keys of the details dictionary. */
  datatype Key =
    | OcrText            // "ocr_text"
    | ExtractedName      // "Extracted_Name"
    | ExtractedDob       // "Extracted_DOB"
    | ExtractedAadhaar   // "Extracted_Aadhaar_number"
    | Name               // "name"
    | Dob                // "dob"
    | AadhaarNumber      // "aadhaar_number"

  /** The keys the details dictionary starts with. */
  const InitialKeys: set<Key> := {OcrText, ExtractedName, ExtractedDob, ExtractedAadhaar}

  /** The keys `extract_details` returns, given the results of the two
      searches: the four initial ones, `name`, and `dob` and
      `aadhaar_number` exactly when their patterns match. */
  function DetailKeys(dob: Option<DobMatch>, aadhaar: Option<string>): set<Key> {
    InitialKeys + {Name}
      + (if dob.Some? then {Dob} else {})
      + (if aadhaar.Some? then {AadhaarNumber} else {})
  }

  /** The name `extract_details(text)` stores: the last (at most three)
      words before the matched "DOB", or the sentinel when there is no
      match. */
  function NameFor(text: string): (name: string)
    ensures FindDob(text, 0).None? ==> name == NameNotFound
    ensures FindDob(text, 0).Some? ==>
      Words(name) == LastN(Words(text[..FindDob(text, 0).value.start]), 3) && |Words(name)| <= 3
  {
    var dob := FindDob(text, 0);
    if dob.None? then NameNotFound
    else
      NameWords(Words(text[..dob.value.start]));
      Join(LastN(Words(text[..dob.value.start]), 3))
  }

  /** The dictionary `extract_details` fills from the OCR text, the two
      search results and the name. */
  predicate DetailsOf(d: map<Key, FieldValue>, text: string, dob: Option<DobMatch>,
                      aadhaar: Option<string>, name: string) {
    d.Keys == DetailKeys(dob, aadhaar) &&
    d[OcrText] == Str(text) &&
    d[ExtractedName] == Null && d[ExtractedDob] == Null && d[ExtractedAadhaar] == Null &&
    (dob.Some? ==> d[Dob] == Str(dob.value.date)) &&
    (aadhaar.Some? ==> d[AadhaarNumber] == Str(aadhaar.value)) &&
    d[Name] == Str(name)
  }

  /** What `extract_details(text)` returns. */
  predicate DetailsFor(text: string, d: map<Key, FieldValue>) {
    DetailsOf(d, text, FindDob(text, 0), FindAadhaar(text, 0), NameFor(text))
  }

  /** `extract_details`: the dictionary is filled key by key. */
  method ExtractDetails(text: string) returns (details: map<Key, FieldValue>)
    ensures DetailsFor(text, details)
    ensures Name in details && details[Name].Str?
    ensures FindDob(text, 0).Some? ==>
      Words(details[Name].text) == LastN(Words(text[..FindDob(text, 0).value.start]), 3)
  {
    details := map[OcrText := Str(text), ExtractedName := Null,
                   ExtractedDob := Null, ExtractedAadhaar := Null];
    assert details.Keys == InitialKeys;
    var dobMatch := FindDob(text, 0);
    if dobMatch.Some? {
      details := details[Dob := Str(dobMatch.value.date)];
    }
    ghost var withDob := InitialKeys + (if dobMatch.Some? then {Dob} else {});
    assert details.Keys == withDob;
    var aadhaarMatch := FindAadhaar(text, 0);
    if aadhaarMatch.Some? {
      details := details[AadhaarNumber := Str(aadhaarMatch.value)];
    }
    assert details.Keys == withDob + (if aadhaarMatch.Some? then {AadhaarNumber} else {});
    var name := NameNotFound;
    if dobMatch.Some? {
      var words := Words(text[..dobMatch.value.start]);
      name := if |words| >= 3 then Join(words[|words| - 3..]) else Join(words);
      NameWords(words);
    }
    assert name == NameFor(text);
    details := details[Name := Str(name)];
    assert DetailsOf(details, text, dobMatch, aadhaarMatch, name);
  }

  /** The name is made of the last (at most three) words before "DOB", and
      splitting it again gives those words back. */
  lemma NameWords(words: seq<string>)
    requires AllWords(words)
    ensures AllWords(LastN(words, 3))
    ensures Words(Join(LastN(words, 3))) == LastN(words, 3)
    ensures |Words(Join(LastN(words, 3)))| <= 3
  {
    var r := LastN(words, 3);
    assert forall i :: 0 <= i < |r| ==> r[i] == words[|words| - |r| + i];
    SplitJoin(r);
  }

  /** The description determines the dictionary completely. */
  lemma DetailsForUnique(text: string, d1: map<Key, FieldValue>, d2: map<Key, FieldValue>)
    requires DetailsFor(text, d1) && DetailsFor(text, d2)
    ensures d1 == d2
  {
    DetailsOfUnique(d1, d2, text, FindDob(text, 0), FindAadhaar(text, 0), NameFor(text));
  }

  lemma DetailsOfUnique(d1: map<Key, FieldValue>, d2: map<Key, FieldValue>, text: string,
                        dob: Option<DobMatch>, aadhaar: Option<string>, name: string)
    requires DetailsOf(d1, text, dob, aadhaar, name) && DetailsOf(d2, text, dob, aadhaar, name)
    ensures d1 == d2
  {
    forall k | k in d1
      ensures d1[k] == d2[k]
    {
      match k
      case Dob => assert dob.Some?;
      case AadhaarNumber => assert aadhaar.Some?;
      case _ =>
    }
  }

  /** Without a date-of-birth match the name is the sentinel and no `dob`
      key is added. */
  lemma NoDobMeansSentinel(text: string, d: map<Key, FieldValue>)
    requires DetailsFor(text, d)
    requires forall j :: !DobAt(text, j)
    ensures d[Name] == Str(NameNotFound) && Dob !in d
  {
    if FindDob(text, 0).Some? {
      FindDobMatches(text, 0);
    }
  }

  // ---------------------------------------------------------------------
  // perform_ocr

  /** What `perform_ocr` produces. */
  datatype OcrOutcome =
    | ImageNotProcessed                                 // "Image could not be processed."
    | NoMeaningfulText                                  // "No meaningful text found."
    | Extracted(details: map<Key, FieldValue>, angle: int)

  /** `perform_ocr`: `readable` says whether the image could be read; when
      it is, `fragments[k]` holds the pieces of text the reader found in the
      image rotated by `Rotations[k]`, which are joined with spaces. */
  method PerformOcr(readable: bool, fragments: seq<seq<string>>) returns (outcome: OcrOutcome)
    requires |fragments| == |Rotations|
    ensures !readable ==> outcome == ImageNotProcessed
    ensures readable ==> outcome.Extracted?
    ensures outcome.Extracted? ==>
      var t0, t90 := Join(fragments[0]), Join(fragments[1]);
      var zeroWins := TextScore(t0) + 10.0 >= TextScore(t90);
      outcome.angle == (if zeroWins then 0 else 90) &&
      DetailsFor(if zeroWins then t0 else t90, outcome.details)
  {
    if !readable {
      return ImageNotProcessed;
    }
    var texts := [Join(fragments[0]), Join(fragments[1])];
    var best := SelectBest(Rotations, texts);
    if best.None? {
      return NoMeaningfulText;
    }
    ZeroWinsUnlessBeaten(texts, best.value);
    var details := ExtractDetails(texts[best.value]);
    outcome := Extracted(details, Rotations[best.value]);
  }

  // ---------------------------------------------------------------------
  // FaceProcessor.extract_face

  /** A detected face: top-left corner, width and height. */
  datatype Box = Box(x: nat, y: nat, w: nat, h: nat)

  function Area(b: Box): nat {
    b.w * b.h
  }

  /** `max(faces, key=lambda f: f[2] * f[3])`: the index of the first box of
      largest area. */
  function LargestFace(faces: seq<Box>): (k: nat)
    requires |faces| > 0
    ensures k < |faces|
    ensures forall j :: 0 <= j < |faces| ==> Area(faces[j]) <= Area(faces[k])
    ensures forall j :: 0 <= j < k ==> Area(faces[j]) < Area(faces[k])
  {
    if |faces| == 1 then 0
    else
      var k := LargestFace(faces[..|faces| - 1]);
      if Area(faces[|faces| - 1]) > Area(faces[k]) then |faces| - 1 else k
  }

  /** `extract_face`: no face when the detector found none, otherwise the
      first box of largest area (before the crop is cut and resized). */
  function ExtractFace(faces: seq<Box>): (face: Option<Box>)
    ensures face.None? <==> faces == []
    ensures face.Some? ==>
      exists k :: 0 <= k < |faces| && faces[k] == face.value &&
                  (forall j :: 0 <= j < |faces| ==> Area(faces[j]) <= Area(face.value)) &&
                  (forall j :: 0 <= j < k ==> Area(faces[j]) < Area(face.value))
  {
    if faces == [] then None else Some(faces[LargestFace(faces)])
  }
}
